/** The control/data classifier (control_data_segregation/main.c): Ethernet, at most
    one VLAN tag, IPv4, then TCP or UDP ports. That the function is accepted at all
    says it never reads outside the packet: every index below is in bounds for every
    byte string, whatever its length fields claim. */
module Classifier {
  import opened Wire

  const PROTO_OSPF: U8 := 89

  predicate IsControlTcpPort(port: U16) {
    port in {22, 53, 179, 389}
  }

  predicate IsControlUdpPort(port: U16) {
    port in {53, 67, 68, 123, 161}
  }

  /** The frame carries an 802.1Q tag. */
  predicate Tagged(pkt: seq<U8>) {
    |pkt| >= 14 && WordAt(pkt, 12) == ETHER_VLAN
  }

  /** True: control plane; false: data plane, which short frames count as. */
  function Classify(pkt: seq<U8>): bool {
    if |pkt| < 14 then false
    else if !Tagged(pkt) then ClassifyL3(pkt, WordAt(pkt, 12), 14)
    else if |pkt| < 18 then false
    else ClassifyL3(pkt, WordAt(pkt, 16), 18)
  }

  function ClassifyL3(pkt: seq<U8>, etherType: U16, offset: nat): bool {
    if etherType != ETHER_IPV4 || |pkt| < offset + 20 then false
    else
      var proto := pkt[offset + 9];
      var l4 := offset + (pkt[offset] % 16) * 4;
      if proto == PROTO_ICMP || proto == PROTO_OSPF then true
      else if proto == PROTO_UDP then l4 + 8 <= |pkt| && IsControlUdpPort(WordAt(pkt, l4 + 2))
      else if proto == PROTO_TCP then l4 + 20 <= |pkt| && IsControlTcpPort(WordAt(pkt, l4 + 2))
      else false
  }

  /** The frame with an 802.1Q tag between its addresses and its type. */
  function InsertTag(pkt: seq<U8>, tciHi: U8, tciLo: U8): seq<U8>
    requires |pkt| >= 14
  {
    pkt[..12] + [0x81, 0x00, tciHi, tciLo] + pkt[12..]
  }

  /** Both frames have the same bytes, `shift` further on in `q`. */
  lemma ClassifyL3Shift(p: seq<U8>, q: seq<U8>, shift: nat, etherType: U16, offset: nat)
    requires |q| == |p| + shift && offset <= |p|
    requires forall i :: offset <= i < |p| ==> q[i + shift] == p[i]
    ensures ClassifyL3(q, etherType, offset + shift) == ClassifyL3(p, etherType, offset)
  {
    if etherType == ETHER_IPV4 && |p| >= offset + 20 {
      var l4 := offset + (p[offset] % 16) * 4;
      assert q[offset + shift] == p[offset] && q[offset + 9 + shift] == p[offset + 9];
      if l4 + 4 <= |p| {
        assert q[l4 + 2 + shift] == p[l4 + 2] && q[l4 + 3 + shift] == p[l4 + 3];
      }
    }
  }

  /** Tagging a frame of at least 14 bytes keeps its class if it had no tag; a second
      tag hides the first one's contents, so the frame becomes data. */
  lemma TagTransparent(pkt: seq<U8>, tciHi: U8, tciLo: U8)
    requires |pkt| >= 14
    ensures Tagged(InsertTag(pkt, tciHi, tciLo))
    ensures Classify(InsertTag(pkt, tciHi, tciLo)) <==> Classify(pkt) && !Tagged(pkt)
  {
    var q := InsertTag(pkt, tciHi, tciLo);
    assert forall i :: 12 <= i < |pkt| ==> q[i + 4] == pkt[i];
    assert q[12] == 0x81 && q[13] == 0 && q[16] == pkt[12] && q[17] == pkt[13];
    ClassifyL3Shift(pkt, q, 4, WordAt(pkt, 12), 14);
  }

  /** Control frames are IPv4, at most one tag deep, and long enough for an IPv4 header. */
  lemma OnlyIpv4IsControl(pkt: seq<U8>)
    requires Classify(pkt)
    ensures |pkt| >= 34
    ensures || (pkt[12] == 0x08 && pkt[13] == 0x00)
            || (pkt[12] == 0x81 && pkt[13] == 0x00 && |pkt| >= 38 && pkt[16] == 0x08 && pkt[17] == 0x00)
  {
  }

  /** Trailing bytes never take a frame out of the control plane. */
  lemma PaddingKeepsControl(pkt: seq<U8>, padding: seq<U8>)
    requires Classify(pkt)
    ensures Classify(pkt + padding)
  {
    var q := pkt + padding;
    assert forall i :: 0 <= i < |pkt| ==> q[i] == pkt[i];
    var offset := if Tagged(pkt) then 18 else 14;
    var l4 := offset + (pkt[offset] % 16) * 4;
    assert q[offset] == pkt[offset] && q[offset + 9] == pkt[offset + 9];
    assert q[12] == pkt[12] && q[13] == pkt[13];
    if Tagged(pkt) { assert q[16] == pkt[16] && q[17] == pkt[17]; }
    if l4 + 4 <= |pkt| { assert q[l4 + 2] == pkt[l4 + 2] && q[l4 + 3] == pkt[l4 + 3]; }
  }

  // ------------------------------------------------ what the classes mean

  /** A frame by its parts: `tag` is the 802.1Q tag control field, `front` and `back`
      the IPv4 header around its protocol byte, `options` what follows it. */
  datatype Parts = Parts(
    macs: seq<U8>, tag: Option<U16>, version: U8, front: seq<U8>, proto: U8, back: seq<U8>,
    options: seq<U8>, payload: seq<U8>)
  {
    /** The lengths are those of the formats, the IHL counting the options. */
    ghost predicate WellFormed() {
      && |macs| == 12 && |front| == 8 && |back| == 10 && version < 16
      && |options| % 4 == 0 && |options| <= 40
    }

    function Ipv4(): seq<U8>
      requires version < 16 && |options| <= 40
    {
      [version * 16 + 5 + |options| / 4] + front + [proto] + back + options + payload
    }

    function Frame(): seq<U8>
      requires version < 16 && |options| <= 40
    {
      macs + (if tag.Some? then [0x81, 0x00, tag.value / 256, tag.value % 256] else []) + [0x08, 0x00] + Ipv4()
    }
  }

  /** Well-formed IPv4 frames are control exactly when they carry ICMP or OSPF, or a
      whole UDP or TCP header with a destination port of the list. */
  lemma ClassifyWellFormed(f: Parts)
    requires f.WellFormed()
    ensures Classify(f.Frame()) <==>
              || f.proto in {1, 89}
              || (f.proto == 17 && |f.payload| >= 8 && WordAt(f.payload, 2) in {53, 67, 68, 123, 161})
              || (f.proto == 6 && |f.payload| >= 20 && WordAt(f.payload, 2) in {22, 53, 179, 389})
  {
    var bare := f.(tag := None);
    BareFrame(bare);
    if f.tag.Some? {
      TagTransparent(bare.Frame(), f.tag.value / 256, f.tag.value % 256);
      assert f.Frame() == InsertTag(bare.Frame(), f.tag.value / 256, f.tag.value % 256);
    }
  }

  lemma BareFrame(f: Parts)
    requires f.WellFormed() && f.tag.None?
    ensures !Tagged(f.Frame())
    ensures Classify(f.Frame()) <==>
              || f.proto in {1, 89}
              || (f.proto == 17 && |f.payload| >= 8 && WordAt(f.payload, 2) in {53, 67, 68, 123, 161})
              || (f.proto == 6 && |f.payload| >= 20 && WordAt(f.payload, 2) in {22, 53, 179, 389})
  {
    var p, ip := f.Frame(), f.Ipv4();
    assert p[14..] == ip;
    var l4 := 20 + |f.options|;
    assert p[14] == ip[0] && p[14] % 16 == 5 + |f.options| / 4;
    assert p[23] == ip[9] == f.proto;
    assert ip[l4..] == f.payload && |p| == 14 + l4 + |f.payload|;
    if |f.payload| >= 4 {
      assert p[14 + l4 + 2] == f.payload[2] && p[14 + l4 + 3] == f.payload[3];
    }
  }
}
