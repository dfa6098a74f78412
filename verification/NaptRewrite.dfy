/** The version 6 rewrites (rewrite_out and rewrite_in of nat_project/version6/static_nat.c)
    on the bytes of a frame, in the order of the code: address, port, transport
    checksum, header checksum, neither checksum field cleared first; and the packet path
    around them. Main results: on the fields the engine knows they are the rewrites of
    `Napt`, and exactly when the checksums of what is sent verify. */
module NaptRewrite {
  import opened Wire
  import opened Napt
  import opened Checksum

  const HDR_CKSUM := IP + 10

  // ------------------------------------------------------------ the rewrite

  /** The transport checksum is computed over its own old value. */
  function WithStaleL4(f: seq<U8>): (r: seq<U8>)
    requires Translatable(f)
    ensures |r| == |f| && Translatable(r) && Proto(r, IP) == Proto(f, IP)
  {
    PutWord(f, IP + L4Field(Proto(f, IP)), UdpTcpCksum(f, IP))
  }

  /** So is the header checksum. */
  function WithStaleHeader(f: seq<U8>): (r: seq<U8>)
    requires Translatable(f)
    ensures |r| == |f| && Translatable(r) && Proto(r, IP) == Proto(f, IP)
  {
    PutWord(f, HDR_CKSUM, Ipv4Cksum(f, IP))
  }

  function Rewritten6(f: seq<U8>, isSrc: bool, addr: U32, port: U16): (r: seq<U8>)
    requires Translatable(f)
    ensures |r| == |f| && Translatable(r)
  {
    WithStaleHeader(WithStaleL4(WithEndpoint(f, isSrc, addr, port)))
  }

  /** rewrite_out: the source becomes the entry's public endpoint. */
  method StoreOut(a: array<U8>, e: Entry)
    requires Translatable(a[..]) && e.proto == Proto(a[..], IP)
    modifies a
    ensures a[..] == Rewritten6(old(a[..]), true, e.publicIp, e.publicPort)
  {
    StoreWord(a, IP + 12, e.publicIp / 0x1_0000);
    StoreWord(a, IP + 14, e.publicIp % 0x1_0000);
    if e.proto == PROTO_TCP {
      StoreWord(a, IP + 20, e.publicPort);
      StoreWord(a, IP + 36, UdpTcpCksum(a[..], IP));
    } else {
      StoreWord(a, IP + 20, e.publicPort);
      StoreWord(a, IP + 26, UdpTcpCksum(a[..], IP));
    }
    StoreWord(a, HDR_CKSUM, Ipv4Cksum(a[..], IP));
  }

  /** rewrite_in: the destination becomes the entry's private endpoint. */
  method StoreIn(a: array<U8>, e: Entry)
    requires Translatable(a[..]) && e.proto == Proto(a[..], IP)
    modifies a
    ensures a[..] == Rewritten6(old(a[..]), false, e.privateIp, e.privatePort)
  {
    StoreWord(a, IP + 16, e.privateIp / 0x1_0000);
    StoreWord(a, IP + 18, e.privateIp % 0x1_0000);
    if e.proto == PROTO_TCP {
      StoreWord(a, IP + 22, e.privatePort);
      StoreWord(a, IP + 36, UdpTcpCksum(a[..], IP));
    } else {
      StoreWord(a, IP + 22, e.privatePort);
      StoreWord(a, IP + 26, UdpTcpCksum(a[..], IP));
    }
    StoreWord(a, HDR_CKSUM, Ipv4Cksum(a[..], IP));
  }

  // ------------------------------------------------- what the engine sees

  /** Byte `j` lies in an address, a port or a checksum. */
  predicate InHeaders(f: seq<U8>, j: int)
    requires Translatable(f)
  {
    || InField(j, IP + 12, 8) || InField(j, IP + 20, 4)
    || InField(j, HDR_CKSUM, 2) || InField(j, IP + L4Field(Proto(f, IP)), 2)
  }

  /** The 5-tuple that parse reads. */
  function Tuple(f: seq<U8>): Key
    requires Translatable(f)
  {
    Key(AddressAt(f, IP + 12), AddressAt(f, IP + 16), WordAt(f, IP + 20), WordAt(f, IP + 22), Proto(f, IP))
  }

  /** The packet of `Napt` that stands for a frame: its 5-tuple, and as the rest every
      byte that is not an address, a port or a checksum. */
  function View(f: seq<U8>): Packet
    requires Translatable(f)
  {
    Packet(WordAt(f, 12), Tuple(f),
           seq(|f|, j requires 0 <= j < |f| => if InHeaders(f, j) then 0 else f[j]))
  }

  /** Which bytes the rewrite changes, and to what: an address and a port, the header
      checksum at bytes 10 and 11 of the IPv4 header, and the transport checksum at bytes
      16 and 17 of a TCP header or 6 and 7 of a UDP header. */
  lemma RewriteTouches(f: seq<U8>, isSrc: bool, addr: U32, port: U16, j: nat)
    requires Translatable(f) && j < |f|
    ensures var r, l4 := Rewritten6(f, isSrc, addr, port), 14 + 20;
            var addrField, portField := if isSrc then 14 + 12 else 14 + 16, if isSrc then l4 else l4 + 2;
            && AddressAt(r, addrField) == addr && WordAt(r, portField) == port
            && (!InField(j, addrField, 4) && !InField(j, portField, 2) && !InField(j, 14 + 10, 2)
                && !InField(j, if f[14 + 9] == 6 then l4 + 16 else l4 + 6, 2)
                ==> r[j] == f[j])
  {
  }

  /** The stores on the bytes are the rewrites of the engine. */
  lemma RewritesAreNapts(f: seq<U8>, e: Entry)
    requires Translatable(f)
    ensures Parse(View(f)) == Some(View(f).tuple)
    ensures View(Rewritten6(f, true, e.publicIp, e.publicPort)) == RewriteOut(View(f), e)
    ensures View(Rewritten6(f, false, e.privateIp, e.privatePort)) == RewriteIn(View(f), e)
  {
    ViewOfRewrite(f, true, e.publicIp, e.publicPort);
    ViewOfRewrite(f, false, e.privateIp, e.privatePort);
  }

  lemma ViewOfRewrite(f: seq<U8>, isSrc: bool, addr: U32, port: U16)
    requires Translatable(f)
    ensures var t := View(f).tuple;
            View(Rewritten6(f, isSrc, addr, port)) ==
              View(f).(tuple := if isSrc then t.(srcIp := addr, srcPort := port)
                                else t.(dstIp := addr, dstPort := port))
  {
    var r := Rewritten6(f, isSrc, addr, port);
    forall j | 0 <= j < |f|
      ensures InHeaders(r, j) <==> InHeaders(f, j)
      ensures !InHeaders(f, j) ==> r[j] == f[j]
    {
      RewriteTouches(f, isSrc, addr, port, j);
    }
    assert View(r).rest == View(f).rest;
  }

  // ----------------------------------------------------- the whole packet path

  /** The frame holds the headers that parse reads and, if parse accepts it, those that
      the rewrites store into. */
  predicate Readable(f: seq<U8>) {
    && IP <= |f|
    && (WordAt(f, 12) == ETHER_IPV4 ==>
          IP + 20 <= |f| && (Proto(f, IP) in {PROTO_TCP, PROTO_UDP} ==> Translatable(f)))
  }

  /** The bytes sent on, or None for a drop; frames that parse rejects are dropped. */
  function FrameOutput(s: Nat, f: seq<U8>, env: Env): Option<seq<U8>>
    requires Consistent(s) && Fresh(s, env.mem)
  {
    if !Translatable(f) then None
    else match Handler(s, View(f), env)
      case None => None
      case Some(p) =>
        var e := AfterPacket(s, View(f), env).heap[p];
        Some(if Inbound(s, View(f)) then Rewritten6(f, false, e.privateIp, e.privatePort)
             else Rewritten6(f, true, e.publicIp, e.publicPort))
  }

  function AfterFrame(s: Nat, f: seq<U8>, env: Env): (s': Nat)
    requires Consistent(s) && Fresh(s, env.mem)
    ensures Consistent(s')
  {
    if Translatable(f) then AfterPacket(s, View(f), env) else s
  }

  /** What the engine does to packets is what the code does to frames, and the rewrite
      finds the transport header where the entry says it is. */
  lemma EngineOnFrames(s: Nat, f: seq<U8>, env: Env)
    requires Consistent(s) && Fresh(s, env.mem)
    ensures match FrameOutput(s, f, env)
            case None => Translatable(f) ==> Output(s, View(f), env) == None
            case Some(r) => Translatable(f) && Translatable(r) && Output(s, View(f), env) == Some(View(r))
    ensures Translatable(f) && Handler(s, View(f), env).Some? ==>
              AfterFrame(s, f, env).heap[Handler(s, View(f), env).value].proto == Proto(f, IP)
  {
    if Translatable(f) && Handler(s, View(f), env).Some? {
      RewritesAreNapts(f, AfterFrame(s, f, env).heap[Handler(s, View(f), env).value]);
    }
  }

  /** The cases of the packet path: an entry is found, there is none, or one is made. */
  lemma FrameKnown(s: Nat, f: seq<U8>, env: Env)
    requires Consistent(s) && Fresh(s, env.mem) && Translatable(f)
    requires if Tuple(f).dstIp == s.publicIp then Tuple(f) in s.rev else Tuple(f) in s.fwd
    ensures var t, s' := Tuple(f), AfterFrame(s, f, env);
            var p := if t.dstIp == s.publicIp then s.rev[t] else s.fwd[t];
            && p in s.heap && s' == Refreshed(s, p, env.now) && s'.heap[p].proto == Proto(f, IP)
            && FrameOutput(s, f, env) ==
                 Some(if t.dstIp == s.publicIp then Rewritten6(f, false, s'.heap[p].privateIp, s'.heap[p].privatePort)
                      else Rewritten6(f, true, s'.heap[p].publicIp, s'.heap[p].publicPort))
  {
  }

  lemma FrameDropped(s: Nat, f: seq<U8>, env: Env)
    requires Consistent(s) && Fresh(s, env.mem) && Translatable(f)
    requires if Tuple(f).dstIp == s.publicIp then Tuple(f) !in s.rev else Tuple(f) !in s.fwd && env.mem.None?
    ensures AfterFrame(s, f, env) == s && FrameOutput(s, f, env) == None
  {
  }

  lemma FrameCreates(s: Nat, f: seq<U8>, env: Env)
    requires Consistent(s) && Fresh(s, env.mem) && Translatable(f)
    requires Tuple(f).dstIp != s.publicIp && Tuple(f) !in s.fwd && env.mem.Some?
    ensures var p, s' := env.mem.value, AfterFrame(s, f, env);
            && s' == Create(s, Tuple(f), p, env) && s'.heap[p].proto == Proto(f, IP)
            && FrameOutput(s, f, env) == Some(Rewritten6(f, true, s'.heap[p].publicIp, s'.heap[p].publicPort))
  {
  }

  /** parse: the 5-tuple of an IPv4 frame that carries TCP or UDP. */
  method ParseFrame(a: array<U8>) returns (t: Option<Key>)
    requires Readable(a[..])
    ensures t == if Translatable(a[..]) then Some(Tuple(a[..])) else None
  {
    if WordAt(a[..], 12) != ETHER_IPV4 {
      return None;
    }
    var srcIp, dstIp, proto := AddressAt(a[..], IP + 12), AddressAt(a[..], IP + 16), a[IP + 9];
    if proto != PROTO_TCP && proto != PROTO_UDP {
      return None;
    }
    t := Some(Key(srcIp, dstIp, WordAt(a[..], IP + 20), WordAt(a[..], IP + 22), proto));
  }

  /** nat_process_packet on the frame in `a`: 0 forwards it, -1 drops it. Looking an
      entry up never follows a freed pointer: `Consistent` is what that needs. */
  method ProcessPacket(engine: Engine, a: array<U8>, env: Env) returns (ret: int)
    requires Consistent(engine.Value()) && Fresh(engine.Value(), env.mem) && Readable(a[..])
    modifies engine, a
    ensures engine.Value() == AfterFrame(old(engine.Value()), old(a[..]), env)
    ensures match FrameOutput(old(engine.Value()), old(a[..]), env)
            case Some(out) => ret == 0 && a[..] == out
            case None => ret == -1 && a[..] == old(a[..])
  {
    var parsed := ParseFrame(a);
    if parsed.None? {
      return -1;
    }
    var t := parsed.value;
    if t.dstIp == engine.publicIp {
      if t !in engine.revHash {
        FrameDropped(engine.Value(), a[..], env);
        return -1;
      }
      FrameKnown(engine.Value(), a[..], env);
      var p := engine.revHash[t];
      engine.Refresh(p, env.now);
      StoreIn(a, engine.heap[p]);
      return 0;
    }
    var e: Option<Ptr> := None;
    if t !in engine.fwdHash {
      if env.mem.None? {
        FrameDropped(engine.Value(), a[..], env);
      } else {
        FrameCreates(engine.Value(), a[..], env);
      }
      e := engine.CreateEntry(t, env);
      if e.None? {
        return -1;
      }
    } else {
      FrameKnown(engine.Value(), a[..], env);
      e := Some(engine.fwdHash[t]);
      engine.Refresh(e.value, env.now);
    }
    StoreOut(a, engine.heap[e.value]);
    return 0;
  }

  // ------------------------------------------------------------- checksums

  /** Version 6 sends a packet whose header checksum verifies exactly when the packet
      it received had zero there, as 0x0000 or 0xFFFF, and the same for the transport
      checksum. */
  lemma SentVerifiesIffReceivedZero(f: seq<U8>, isSrc: bool, addr: U32, port: U16)
    requires Translatable(f) && HoldsL4(f, IP)
    ensures var r := Rewritten6(f, isSrc, addr, port);
            && Covered(r, IP)
            && (Verifies(WordSum(r[IP..IP + 20])) <==> WordAt(f, HDR_CKSUM) in {0, 0xFFFF})
            && (Verifies(L4Sum(r, IP)) <==> WordAt(f, IP + L4Field(Proto(f, IP))) in {0, 0xFFFF})
  {
    var t := WithEndpoint(f, isSrc, addr, port);
    EndpointKeepsFields(f, isSrc, addr, port);
    ChecksumsVerifyIff(t);
  }

  lemma ChecksumsVerifyIff(t: seq<U8>)
    requires Translatable(t) && HoldsL4(t, IP) && HoldsL4(WithStaleL4(t), IP)
    ensures var u := WithStaleL4(t);
            var r := WithStaleHeader(u);
            && HoldsL4(r, IP)
            && (Verifies(WordSum(r[IP..IP + 20])) <==> WordAt(u, HDR_CKSUM) in {0, 0xFFFF})
            && (Verifies(L4Sum(r, IP)) <==> WordAt(t, IP + L4Field(Proto(t, IP))) in {0, 0xFFFF})
  {
    StaleL4VerifiesIff(t);
    StaleHeaderVerifiesIff(WithStaleL4(t));
  }

  lemma StaleL4VerifiesIff(t: seq<U8>)
    requires Translatable(t) && HoldsL4(t, IP)
    ensures Verifies(L4Sum(WithStaleL4(t), IP)) <==> WordAt(t, IP + L4Field(Proto(t, IP))) in {0, 0xFFFF}
  {
    L4CksumVerifiesIff(t, IP);
  }

  lemma StaleHeaderVerifiesIff(u: seq<U8>)
    requires Translatable(u) && HoldsL4(u, IP)
    ensures HoldsL4(WithStaleHeader(u), IP) && L4Sum(WithStaleHeader(u), IP) == L4Sum(u, IP)
    ensures Verifies(WordSum(WithStaleHeader(u)[IP..IP + 20])) <==> WordAt(u, HDR_CKSUM) in {0, 0xFFFF}
  {
    HeaderCksumVerifiesIff(u, IP);
    HeaderStoreKeepsL4Sum(u);
  }

  lemma EndpointKeepsFields(f: seq<U8>, isSrc: bool, addr: U32, port: U16)
    requires Translatable(f) && HoldsL4(f, IP)
    ensures var t := WithEndpoint(f, isSrc, addr, port);
            var u := WithStaleL4(t);
            && HoldsL4(t, IP) && HoldsL4(u, IP)
            && WordAt(u, HDR_CKSUM) == WordAt(f, HDR_CKSUM)
            && WordAt(t, IP + L4Field(Proto(t, IP))) == WordAt(f, IP + L4Field(Proto(f, IP)))
  {
  }

  /** The transport sum does not cover the header checksum. */
  lemma HeaderStoreKeepsL4Sum(u: seq<U8>)
    requires Translatable(u) && HoldsL4(u, IP)
    ensures HoldsL4(WithStaleHeader(u), IP) && L4Sum(WithStaleHeader(u), IP) == L4Sum(u, IP)
  {
    assert Segment(WithStaleHeader(u), IP) == Segment(u, IP);
  }
}
