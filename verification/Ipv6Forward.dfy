/**
 IPv6 over PPPoE: frames of the LAN side (Ethernet, VLAN tag, IPv6) become PPPoE
 session frames in place, the headers moving eight bytes down, and back. A frame
 is the sequence of its bytes from the destination MAC on.
 */
module Ipv6Forward {
  type Byte = x: nat | x < 256

  const L2_LEN := 18              // Ethernet header and VLAN tag
  const PPPOE_HDR_LEN := 8        // PPPoE header and PPP protocol field
  const IP6_LEN := 40
  const ETH_MTU := 1500
  const PPPOE_MTU := ETH_MTU - PPPOE_HDR_LEN
  const MIN_MTU := 1280
  const PTB_HDR_LEN := 8

  const IPPROTO_UDP := 17
  const IPPROTO_ICMPV6 := 58
  const ND6_ICMP_RS := 133
  const ND6_ICMP_NS := 135
  const ND6_ICMP_NA := 136
  const DHCP6_CLIENT_PORT := 546

  const FRAME_TYPE_IPV6: seq<Byte> := [0x86, 0xDD]
  const ETH_P_PPP_SES: seq<Byte> := [0x88, 0x64]
  const PPP_IPV6_PROTOCOL: seq<Byte> := [0x00, 0x57]
  const VER_TYPE: Byte := 0x11

  type Mac = m: seq<Byte> | |m| == 6 witness [0, 0, 0, 0, 0, 0]

  function Be16(hi: Byte, lo: Byte): nat {
    256 * hi + lo
  }

  function ToBe16(x: nat): (r: seq<Byte>)
    ensures |r| == 2
  {
    [x / 256 % 256, x % 256]
  }

  // ---- IPv6 packets ----

  function PayloadLen(ip: seq<Byte>): nat
    requires |ip| >= IP6_LEN
  {
    Be16(ip[4], ip[5])
  }

  function Source(ip: seq<Byte>): seq<Byte>
    requires |ip| >= IP6_LEN
  {
    ip[8..24]
  }

  function Destination(ip: seq<Byte>): seq<Byte>
    requires |ip| >= IP6_LEN
  {
    ip[24..40]
  }

  /** Version 6, and as long as its header says. */
  predicate WellFormed(ip: seq<Byte>) {
    |ip| >= IP6_LEN && ip[0] / 16 == 6 && |ip| == IP6_LEN + PayloadLen(ip)
  }

  predicate IsMulticast(addr: seq<Byte>)
    requires |addr| == 16
  {
    addr[0] == 0xFF
  }

  predicate IsLinkLocal(addr: seq<Byte>)
    requires |addr| == 16
  {
    addr[0] == 0xFE && addr[1] / 64 == 2
  }

  predicate High64IsZero(addr: seq<Byte>)
    requires |addr| == 16
  {
    addr[..8] == [0, 0, 0, 0, 0, 0, 0, 0]
  }

  /** One hop: the limit is an unsigned byte. */
  function Hop(ip: seq<Byte>): (r: seq<Byte>)
    requires |ip| >= IP6_LEN
    ensures |r| == |ip|
  {
    ip[7 := if ip[7] == 0 then 255 else ip[7] - 1]
  }

  // ---- classification ----

  datatype LanVerdict = LAN_DROP | LAN_TO_CP | LAN_PASSTHROUGH | LAN_TOO_BIG | LAN_FORWARD

  /** ipv6_lan_classify */
  function LanClassify(f: seq<Byte>, lanMac: Mac, prefix: seq<Byte>, gateOpen: bool): LanVerdict
    requires |prefix| == 8
  {
    if |f| < L2_LEN + IP6_LEN then LAN_DROP
    else
      var ip := f[L2_LEN..];
      if ip[0] / 16 != 6 || |f| != L2_LEN + IP6_LEN + PayloadLen(ip) then LAN_DROP
      else if ip[6] == IPPROTO_ICMPV6 && PayloadLen(ip) >= PTB_HDR_LEN
              && ip[40] in {ND6_ICMP_RS, ND6_ICMP_NS, ND6_ICMP_NA} then LAN_TO_CP
      else if !gateOpen then LAN_DROP
      else if f[..6] != lanMac then LAN_PASSTHROUGH
      else if Source(ip)[..8] != prefix then LAN_DROP
      else if IsMulticast(Destination(ip)) || IsLinkLocal(Destination(ip)) || Destination(ip)[..8] == prefix
              || High64IsZero(Destination(ip)) then LAN_DROP
      else if ip[7] <= 1 then LAN_DROP
      else if IP6_LEN + PayloadLen(ip) > PPPOE_MTU then LAN_TOO_BIG
      else LAN_FORWARD
  }

  datatype WanVerdict = WAN_DROP | WAN_TO_CP | WAN_FORWARD

  /** ipv6_wan_classify */
  function WanClassify(f: seq<Byte>, prefix: seq<Byte>): WanVerdict
    requires |prefix| == 8
  {
    if |f| < L2_LEN + PPPOE_HDR_LEN + IP6_LEN then WAN_DROP
    else
      var ip := f[L2_LEN + PPPOE_HDR_LEN..];
      if ip[0] / 16 != 6 || |ip| != IP6_LEN + PayloadLen(ip) then WAN_DROP
      else if Destination(ip)[..8] == prefix then WAN_FORWARD
      else if ip[6] == IPPROTO_UDP && PayloadLen(ip) >= 8 && Be16(ip[42], ip[43]) == DHCP6_CLIENT_PORT then WAN_TO_CP
      else if ip[6] == IPPROTO_ICMPV6 && (IsLinkLocal(Destination(ip)) || IsMulticast(Destination(ip))) then WAN_TO_CP
      else WAN_DROP
  }

  // ---- which frames get which verdict, by the bytes on the wire ----

  /** Router solicitation, neighbor solicitation or neighbor advertisement, with its eight bytes. */
  predicate NeighborDiscovery(f: seq<Byte>) {
    |f| >= 66 && f[24] == 58 && (f[58] == 133 || f[58] == 135 || f[58] == 136)
  }

  predicate LanPacket(f: seq<Byte>) {
    |f| >= 58 && WellFormed(f[18..])
  }

  /** From a host of the prefix, for an address beyond the gateway, with a hop to spare. */
  predicate ForTheWan(f: seq<Byte>, prefix: seq<Byte>)
    requires LanPacket(f) && |prefix| == 8
  {
    f[26..34] == prefix && f[42] != 0xFF && !(f[42] == 0xFE && 0x80 <= f[43] < 0xC0) &&
    f[42..50] != prefix && f[42..50] != [0, 0, 0, 0, 0, 0, 0, 0] && f[25] > 1
  }

  /** Neighbor discovery goes to the control plane whatever its addresses and whether the gate is open or not. */
  lemma LanToCpExactly(f: seq<Byte>, lanMac: Mac, prefix: seq<Byte>, gateOpen: bool)
    requires |prefix| == 8
    ensures LanClassify(f, lanMac, prefix, gateOpen) == LAN_TO_CP <==> LanPacket(f) && NeighborDiscovery(f)
  {
  }

  /** Another host's frame passes if the gate is open. */
  lemma LanPassthroughExactly(f: seq<Byte>, lanMac: Mac, prefix: seq<Byte>, gateOpen: bool)
    requires |prefix| == 8
    ensures LanClassify(f, lanMac, prefix, gateOpen) == LAN_PASSTHROUGH <==>
              LanPacket(f) && !NeighborDiscovery(f) && gateOpen && f[..6] != lanMac
  {
  }

  /** The gateway's own frames are forwarded, or refused for their size, if they are for the WAN; the rest is dropped. */
  lemma LanForwardExactly(f: seq<Byte>, lanMac: Mac, prefix: seq<Byte>, gateOpen: bool)
    requires |prefix| == 8
    ensures var ours := LanPacket(f) && !NeighborDiscovery(f) && gateOpen && f[..6] == lanMac && ForTheWan(f, prefix);
            var verdict := LanClassify(f, lanMac, prefix, gateOpen);
            && (verdict == LAN_FORWARD <==> ours && |f| <= 18 + 1492)
            && (verdict == LAN_TOO_BIG <==> ours && |f| > 18 + 1492)
            && (verdict == LAN_DROP <==> !ours && !(LanPacket(f) && NeighborDiscovery(f))
                                         && !(LanPacket(f) && gateOpen && f[..6] != lanMac))
  {
    if LanPacket(f) { ForTheWanIs(f, prefix); }
  }

  lemma ForTheWanIs(f: seq<Byte>, prefix: seq<Byte>)
    requires LanPacket(f) && |prefix| == 8
    ensures var ip := f[L2_LEN..];
            var dst := Destination(ip);
            ForTheWan(f, prefix) <==>
              Source(ip)[..8] == prefix &&
              !(IsMulticast(dst) || IsLinkLocal(dst) || dst[..8] == prefix || High64IsZero(dst)) && ip[7] > 1
  {
    var ip := f[L2_LEN..];
    assert Source(ip)[..8] == f[26..34] && Destination(ip)[..8] == f[42..50];
    assert Destination(ip)[0] == f[42] && Destination(ip)[1] == f[43] && ip[7] == f[25];
  }

  /** From the session: what is for the prefix is forwarded, DHCPv6 and ICMPv6 for the gateway itself go to the control plane. */
  lemma WanClassifyExactly(f: seq<Byte>, prefix: seq<Byte>)
    requires |prefix| == 8
    ensures var ours := |f| >= 66 && WellFormed(f[26..]);
            var verdict := WanClassify(f, prefix);
            && (verdict == WAN_FORWARD <==> ours && f[50..58] == prefix)
            && (verdict == WAN_TO_CP <==>
                  ours && f[50..58] != prefix &&
                  ((f[32] == 17 && |f| >= 74 && Be16(f[68], f[69]) == 546) ||
                   (f[32] == 58 && ((f[50] == 0xFE && 0x80 <= f[51] < 0xC0) || f[50] == 0xFF))))
            && (verdict == WAN_DROP <==> verdict != WAN_FORWARD && verdict != WAN_TO_CP)
  {
    if |f| >= 66 { WanAddress(f); }
  }

  lemma WanAddress(f: seq<Byte>)
    requires |f| >= 66
    ensures Destination(f[26..])[..8] == f[50..58]
    ensures Destination(f[26..])[0] == f[50] && Destination(f[26..])[1] == f[51]
  {
  }

  // ---- the frames ----

  /** The session frame for LAN frame f. */
  ghost function Encapsulated(f: seq<Byte>, src: Mac, dst: Mac, session: seq<Byte>): seq<Byte>
    requires |f| >= L2_LEN + IP6_LEN && |session| == 2
  {
    dst + src + f[12..16] + ETH_P_PPP_SES
    + PppoeHeader(|f|, session)
    + Hop(f[L2_LEN..])
  }

  /** The length is stored in 16 bits and counts the PPP protocol field. */
  function PppoeHeader(pktLen: nat, session: seq<Byte>): (r: seq<Byte>)
    requires |session| == 2 && pktLen >= L2_LEN
    ensures |r| == PPPOE_HDR_LEN
  {
    [VER_TYPE, 0] + session + ToBe16((pktLen - L2_LEN + 2) % 65536) + PPP_IPV6_PROTOCOL
  }

  /** The LAN frame for session frame f. */
  ghost function Decapsulated(f: seq<Byte>, src: Mac, dst: Mac): seq<Byte>
    requires |f| >= L2_LEN + PPPOE_HDR_LEN + IP6_LEN
  {
    dst + src + f[12..16] + FRAME_TYPE_IPV6 + Hop(f[L2_LEN + PPPOE_HDR_LEN..])
  }

  /**
   A frame classified FORWARD: source in the LAN prefix, and encapsulated it is a
   session frame whose length field matches what follows it and fits section 7 of
   RFC 2516, whose IPv6 packet differs only in the hop limit, still at least 1.
   */
  lemma ForwardedFrameFits(f: seq<Byte>, lanMac: Mac, prefix: seq<Byte>, gateOpen: bool, src: Mac, dst: Mac, session: seq<Byte>)
    requires |prefix| == 8 && |session| == 2
    requires LanClassify(f, lanMac, prefix, gateOpen) == LAN_FORWARD
    ensures |f| >= L2_LEN + IP6_LEN
    ensures var e := Encapsulated(f, src, dst, session);
            && |e| == |f| + PPPOE_HDR_LEN
            && e[..16] == dst + src + f[12..16] && e[16..18] == ETH_P_PPP_SES
            && e[18] == VER_TYPE && e[19] == 0 && e[20..22] == session && e[24..26] == PPP_IPV6_PROTOCOL
            && Be16(e[22], e[23]) == |e[24..]| <= ETH_MTU - 6
            && WellFormed(e[26..]) && |e[26..]| <= PPPOE_MTU
            && e[33] >= 1 && f[25] >= 1 && e[26..] == f[18..][7 := f[25] - 1]
            && Source(e[26..])[..8] == prefix
  {
    var ip := f[L2_LEN..];
    EncapsulatedLayout(f, src, dst, session);
    assert Source(Hop(ip)) == Source(ip);
  }

  /** Where the parts of a session frame are. */
  lemma EncapsulatedLayout(f: seq<Byte>, src: Mac, dst: Mac, session: seq<Byte>)
    requires |f| >= L2_LEN + IP6_LEN && |session| == 2
    ensures var e := Encapsulated(f, src, dst, session);
            var len := ToBe16((|f| - L2_LEN + 2) % 65536);
            && |e| == |f| + PPPOE_HDR_LEN
            && e[..16] == dst + src + f[12..16] && e[16..18] == ETH_P_PPP_SES
            && e[18] == VER_TYPE && e[19] == 0 && e[20..22] == session && e[22..24] == len
            && e[22] == len[0] && e[23] == len[1]
            && e[24..26] == PPP_IPV6_PROTOCOL && e[26..] == Hop(f[L2_LEN..])
  {
    var e := Encapsulated(f, src, dst, session);
    var h := PppoeHeader(|f|, session);
    assert e[18..26] == h;
    assert e[18] == e[18..26][0] && e[19] == e[18..26][1] && e[22] == e[18..26][4] && e[23] == e[18..26][5];
    assert e[20..22] == e[18..26][2..4] && e[22..24] == e[18..26][4..6] && e[24..26] == e[18..26][6..8];
  }

  /**
   A session frame classified FORWARD whose hop limit is not used up decapsulates to
   a LAN frame with the same tag, whose IPv6 packet is well formed, goes to the LAN
   prefix and differs only in the hop limit, still at least 1.
   */
  lemma WanForwardedFrameFits(f: seq<Byte>, prefix: seq<Byte>, src: Mac, dst: Mac)
    requires |prefix| == 8 && WanClassify(f, prefix) == WAN_FORWARD && f[33] > 1
    ensures var d := Decapsulated(f, src, dst);
            && |d| == |f| - PPPOE_HDR_LEN
            && d[..16] == dst + src + f[12..16] && d[16..18] == FRAME_TYPE_IPV6
            && WellFormed(d[18..]) && d[18..] == f[26..][7 := f[33] - 1] && d[25] >= 1
            && Destination(d[18..])[..8] == prefix
  {
    var d := Decapsulated(f, src, dst);
    var ip := f[L2_LEN + PPPOE_HDR_LEN..];
    assert d[18..] == Hop(ip);
    assert Destination(Hop(ip)) == Destination(ip);
    assert d[..16] == dst + src + f[12..16];
  }

  /** Decapsulation undoes encapsulation up to the MACs, the inner type and two hops. */
  lemma DecapsulatedEncapsulated(f: seq<Byte>, src: Mac, dst: Mac, session: seq<Byte>, src': Mac, dst': Mac)
    requires |f| >= L2_LEN + IP6_LEN && |session| == 2
    ensures |Encapsulated(f, src, dst, session)| == |f| + PPPOE_HDR_LEN
    ensures Decapsulated(Encapsulated(f, src, dst, session), src', dst')
         == dst' + src' + f[12..16] + FRAME_TYPE_IPV6 + Hop(Hop(f[L2_LEN..]))
  {
    var e := Encapsulated(f, src, dst, session);
    assert e[26..] == Hop(f[L2_LEN..]);
    assert e[12..16] == f[12..16];
  }

  /** With two hops left over, the packet survives the trip with every byte but the hop limit. */
  lemma TripKeepsPacket(ip: seq<Byte>)
    requires |ip| >= IP6_LEN && ip[7] >= 2
    ensures Hop(Hop(ip)) == ip[7 := ip[7] - 2]
  {
  }

  /** What the prefix comparison also rejects, as the code relies on: exactly when the prefix itself is routable. */
  lemma PrefixRejectsUnroutableSources(prefix: seq<Byte>)
    requires |prefix| == 8
    ensures (forall a: seq<Byte> :: |a| == 16 && a[..8] == prefix ==>
               !IsMulticast(a) && !IsLinkLocal(a) && !High64IsZero(a))
       <==> prefix[0] != 0xFF && !(prefix[0] == 0xFE && prefix[1] / 64 == 2) && prefix != [0, 0, 0, 0, 0, 0, 0, 0]
  {
    var z: seq<Byte> := prefix + [0, 0, 0, 0, 0, 0, 0, 0];
    assert |z| == 16 && z[..8] == prefix;
    forall a: seq<Byte> | |a| == 16 && a[..8] == prefix ensures a[0] == prefix[0] && a[1] == prefix[1] {
      assert a[0] == a[..8][0] && a[1] == a[..8][1];
    }
  }

  // ---- Packet Too Big ----

  /** The lengths of ipv6_build_packet_too_big; the original's length arrives in 16 bits. */
  function QuoteLen(origLen: nat): nat {
    var l := origLen % 65536;
    if l < MIN_MTU - IP6_LEN - PTB_HDR_LEN then l else MIN_MTU - IP6_LEN - PTB_HDR_LEN
  }

  /** The IPv6 packet built, up to its addresses and checksum. */
  ghost function TooBigReply(orig: seq<Byte>, gateway: seq<Byte>, cksum: seq<Byte>): seq<Byte>
    requires WellFormed(orig) && |gateway| == 16 && |cksum| == 2
  {
    var quote := orig[..QuoteLen(|orig|)];
    [0x60, 0, 0, 0] + ToBe16(PTB_HDR_LEN + |quote|) + [IPPROTO_ICMPV6, 64] + gateway + Source(orig)
    + [2, 0] + cksum + [0, 0] + ToBe16(PPPOE_MTU) + quote
  }

  /** The reply is a well-formed packet of at most 1280 bytes; it is shorter only when the length wrapped. */
  lemma TooBigReplyFits(f: seq<Byte>, lanMac: Mac, prefix: seq<Byte>, gateOpen: bool, gateway: seq<Byte>, cksum: seq<Byte>)
    requires |prefix| == 8 && |gateway| == 16 && |cksum| == 2
    requires LanClassify(f, lanMac, prefix, gateOpen) == LAN_TOO_BIG
    ensures WellFormed(f[L2_LEN..])
    ensures var reply := TooBigReply(f[L2_LEN..], gateway, cksum);
            && WellFormed(reply) && |reply| <= MIN_MTU
            && (|reply| == MIN_MTU <==> |f| - L2_LEN < 65536)
            && Source(reply) == gateway && Destination(reply) == Source(f[L2_LEN..])
            && reply[6] == 58 && reply[7] == 64 && reply[40] == 2 && reply[41] == 0
            && reply[42..44] == cksum && Be16(reply[46], reply[47]) == 1492
            && reply[48..] == f[L2_LEN..][..|reply| - 48]
  {
    var orig := f[L2_LEN..];
    var reply := TooBigReply(orig, gateway, cksum);
    var n := QuoteLen(|orig|);
    assert reply[..8] == [0x60, 0, 0, 0] + ToBe16(PTB_HDR_LEN + n) + [IPPROTO_ICMPV6, 64];
    assert reply[0] == reply[..8][0] && reply[4] == reply[..8][4] && reply[5] == reply[..8][5];
    assert reply[24..40] == Source(orig);
    assert reply[48..] == orig[..n];
  }

  // ---- the packet in its buffer ----

  /** m with the bytes b written at `at`. */
  ghost function Put(m: seq<Byte>, at: nat, b: seq<Byte>): seq<Byte>
    requires at + |b| <= |m|
  {
    seq(|m|, i requires 0 <= i < |m| => if at <= i < at + |b| then b[i - at] else m[i])
  }

  /** The L2 header at off gets new addresses and a new inner type. */
  ghost function Relabelled(m: seq<Byte>, off: nat, src: Mac, dst: Mac, inner: seq<Byte>): (m': seq<Byte>)
    requires off + L2_LEN <= |m| && |inner| == 2
    ensures |m'| == |m|
  {
    Put(Put(Put(m, off + 6, src), off, dst), off + 16, inner)
  }

  lemma RelabelledIs(m: seq<Byte>, off: nat, src: Mac, dst: Mac, inner: seq<Byte>)
    requires off + L2_LEN <= |m| && |inner| == 2
    ensures var m' := Relabelled(m, off, src, dst, inner);
            && m'[..off] == m[..off] && m'[off + L2_LEN..] == m[off + L2_LEN..]
            && m'[off..off + L2_LEN] == dst + src + m[off + 12..off + 16] + inner
  {
    var m' := Relabelled(m, off, src, dst, inner);
    assert m'[off..off + 6] == dst && m'[off + 6..off + 12] == src;
    assert m'[off + 12..off + 16] == m[off + 12..off + 16] && m'[off + 16..off + 18] == inner;
    assert m'[off..off + 18]
        == m'[off..off + 6] + m'[off + 6..off + 12] + m'[off + 12..off + 16] + m'[off + 16..off + 18];
  }

  /** The Ethernet and VLAN headers copied, one after the other, from `from` to `to`. */
  ghost function Moved(m: seq<Byte>, from: nat, to: nat): (m': seq<Byte>)
    requires from + L2_LEN <= |m| && to + L2_LEN <= |m|
    ensures |m'| == |m|
  {
    var m1 := Put(m, to, m[from..from + 14]);
    Put(m1, to + 14, m1[from + 14..from + 18])
  }

  /** Eight bytes down, the first copy does not reach what the second reads. */
  lemma MovedDown(m: seq<Byte>, off: nat)
    requires PPPOE_HDR_LEN <= off && off + L2_LEN <= |m|
    ensures var m' := Moved(m, off, off - 8);
            && m'[off - 8..off + 10] == m[off..off + 18]
            && m'[..off - 8] == m[..off - 8] && m'[off + 18..] == m[off + 18..]
  {
    var m1 := Put(m, off - 8, m[off..off + 14]);
    assert m1[off + 14..off + 18] == m[off + 14..off + 18];
    var m' := Moved(m, off, off - 8);
    assert m'[off - 8..off + 6] == m[off..off + 14] && m'[off + 6..off + 10] == m[off + 14..off + 18];
    assert m'[off - 8..off + 10] == m'[off - 8..off + 6] + m'[off + 6..off + 10];
  }

  ghost function EncapMemory(m: seq<Byte>, off: nat, pktLen: nat, src: Mac, dst: Mac, session: seq<Byte>): seq<Byte>
    requires PPPOE_HDR_LEN <= off && off + pktLen <= |m| && pktLen >= L2_LEN + IP6_LEN && |session| == 2
  {
    var m1 := Put(m, off + L2_LEN, Hop(m[off + L2_LEN..off + pktLen]));
    var m2 := Moved(Relabelled(m1, off, src, dst, ETH_P_PPP_SES), off, off - 8);
    Put(m2, off + 10, PppoeHeader(pktLen, session))
  }

  /** The writes of the encapsulation leave the session frame, and nothing else changed. */
  lemma EncapMemoryIsFrame(m: seq<Byte>, off: nat, pktLen: nat, src: Mac, dst: Mac, session: seq<Byte>)
    requires PPPOE_HDR_LEN <= off && off + pktLen <= |m| && pktLen >= L2_LEN + IP6_LEN && |session| == 2
    ensures var m' := EncapMemory(m, off, pktLen, src, dst, session);
            && |m'| == |m|
            && m'[off - 8..off + pktLen] == Encapsulated(m[off..off + pktLen], src, dst, session)
            && m'[..off - 8] == m[..off - 8] && m'[off + pktLen..] == m[off + pktLen..]
  {
    var f := m[off..off + pktLen];
    var m1 := Put(m, off + L2_LEN, Hop(m[off + L2_LEN..off + pktLen]));
    assert m[off + L2_LEN..off + pktLen] == f[L2_LEN..];
    assert m1[off + 12..off + 16] == m[off + 12..off + 16] == f[12..16];
    assert m1[off + 18..off + pktLen] == Hop(f[L2_LEN..]);
    assert m1[..off - 8] == m[..off - 8] && m1[off + pktLen..] == m[off + pktLen..];
    RelabelledDown(m1, off, pktLen, src, dst);
    Inserted(Moved(Relabelled(m1, off, src, dst, ETH_P_PPP_SES), off, off - 8), off, pktLen, PppoeHeader(pktLen, session));
  }

  /** Both headers relabelled and moved, the packet behind them where it was. */
  lemma RelabelledDown(m: seq<Byte>, off: nat, pktLen: nat, src: Mac, dst: Mac)
    requires PPPOE_HDR_LEN <= off && off + pktLen <= |m| && pktLen >= L2_LEN
    ensures var m' := Moved(Relabelled(m, off, src, dst, ETH_P_PPP_SES), off, off - 8);
            && m'[off - 8..off + 10] == dst + src + m[off + 12..off + 16] + ETH_P_PPP_SES
            && m'[off + 18..off + pktLen] == m[off + 18..off + pktLen]
            && m'[..off - 8] == m[..off - 8] && m'[off + pktLen..] == m[off + pktLen..]
  {
    var m2 := Relabelled(m, off, src, dst, ETH_P_PPP_SES);
    RelabelledIs(m, off, src, dst, ETH_P_PPP_SES);
    MovedDown(m2, off);
    EncapTail(m, m2, Moved(m2, off, off - 8), off, pktLen);
  }

  lemma Inserted(m: seq<Byte>, off: nat, pktLen: nat, header: seq<Byte>)
    requires PPPOE_HDR_LEN <= off && off + pktLen <= |m| && pktLen >= L2_LEN && |header| == PPPOE_HDR_LEN
    ensures var m' := Put(m, off + 10, header);
            && m'[off - 8..off + pktLen] == m[off - 8..off + 10] + header + m[off + 18..off + pktLen]
            && m'[..off - 8] == m[..off - 8] && m'[off + pktLen..] == m[off + pktLen..]
  {
    var m' := Put(m, off + 10, header);
    assert m'[off - 8..off + 10] == m[off - 8..off + 10];
    assert m'[off + 10..off + 18] == header;
    assert m'[off + 18..off + pktLen] == m[off + 18..off + pktLen];
    assert m'[off - 8..off + pktLen] == m'[off - 8..off + 10] + m'[off + 10..off + 18] + m'[off + 18..off + pktLen];
  }

  /** What lies above both headers, and below them, is as before. */
  lemma EncapTail(m1: seq<Byte>, m2: seq<Byte>, m3: seq<Byte>, off: nat, pktLen: nat)
    requires PPPOE_HDR_LEN <= off && off + pktLen <= |m1| == |m2| == |m3| && pktLen >= L2_LEN
    requires m2[..off] == m1[..off] && m2[off + L2_LEN..] == m1[off + L2_LEN..]
    requires m3[..off - 8] == m2[..off - 8] && m3[off + 18..] == m2[off + 18..]
    ensures m3[off + 18..off + pktLen] == m1[off + 18..off + pktLen]
    ensures m3[..off - 8] == m1[..off - 8] && m3[off + pktLen..] == m1[off + pktLen..]
  {
    assert m3[off + 18..off + pktLen] == m3[off + 18..][..pktLen - 18];
    assert m1[off + 18..off + pktLen] == m1[off + 18..][..pktLen - 18];
    assert m3[off + pktLen..] == m3[off + 18..][pktLen - 18..];
    assert m1[off + pktLen..] == m1[off + 18..][pktLen - 18..];
    assert m3[..off - 8] == m2[..off][..off - 8];
    assert m1[..off - 8] == m1[..off][..off - 8];
  }

  /** The way back goes through temporaries: eight bytes up, the first copy overwrites the VLAN header. */
  ghost function MovedUp(m: seq<Byte>, off: nat): (m': seq<Byte>)
    requires off + L2_LEN + PPPOE_HDR_LEN <= |m|
    ensures |m'| == |m|
  {
    Put(Put(m, off + 8, m[off..off + 14]), off + 22, m[off + 14..off + 18])
  }

  ghost function DecapMemory(m: seq<Byte>, off: nat, pktLen: nat, src: Mac, dst: Mac): seq<Byte>
    requires off + pktLen <= |m| && pktLen >= L2_LEN + PPPOE_HDR_LEN + IP6_LEN
  {
    var m1 := Put(m, off + 26, Hop(m[off + 26..off + pktLen]));
    MovedUp(Relabelled(m1, off, src, dst, FRAME_TYPE_IPV6), off)
  }

  lemma DecapMemoryIsFrame(m: seq<Byte>, off: nat, pktLen: nat, src: Mac, dst: Mac)
    requires off + pktLen <= |m| && pktLen >= L2_LEN + PPPOE_HDR_LEN + IP6_LEN
    ensures var m' := DecapMemory(m, off, pktLen, src, dst);
            && |m'| == |m|
            && m'[off + 8..off + pktLen] == Decapsulated(m[off..off + pktLen], src, dst)
            && m'[..off] == m[..off] && m'[off + pktLen..] == m[off + pktLen..]
  {
    var f := m[off..off + pktLen];
    var m1 := Put(m, off + 26, Hop(m[off + 26..off + pktLen]));
    assert m[off + 26..off + pktLen] == f[26..];
    assert m1[off + 12..off + 16] == m[off + 12..off + 16] == f[12..16];
    assert m1[off + 26..off + pktLen] == Hop(f[26..]);
    assert m1[..off] == m[..off] && m1[off + pktLen..] == m[off + pktLen..];
    var m2 := Relabelled(m1, off, src, dst, FRAME_TYPE_IPV6);
    RelabelledIs(m1, off, src, dst, FRAME_TYPE_IPV6);
    var m3 := MovedUp(m2, off);
    MovedUpIs(m2, off);
    DecapTail(m1, m2, m3, off, pktLen);
    assert m3[off + 8..off + pktLen] == m3[off + 8..off + 26] + m3[off + 26..off + pktLen];
  }

  lemma MovedUpIs(m: seq<Byte>, off: nat)
    requires off + L2_LEN + PPPOE_HDR_LEN <= |m|
    ensures var m' := MovedUp(m, off);
            && m'[off + 8..off + 26] == m[off..off + 18]
            && m'[..off] == m[..off] && m'[off + 26..] == m[off + 26..]
  {
    var m' := MovedUp(m, off);
    assert m'[off + 8..off + 22] == m[off..off + 14] && m'[off + 22..off + 26] == m[off + 14..off + 18];
    assert m'[off + 8..off + 26] == m'[off + 8..off + 22] + m'[off + 22..off + 26];
    assert m[off..off + 18] == m[off..off + 14] + m[off + 14..off + 18];
  }

  lemma DecapTail(m1: seq<Byte>, m2: seq<Byte>, m3: seq<Byte>, off: nat, pktLen: nat)
    requires off + pktLen <= |m1| == |m2| == |m3| && pktLen >= 26
    requires m2[..off] == m1[..off] && m2[off + 18..] == m1[off + 18..]
    requires m3[..off] == m2[..off] && m3[off + 26..] == m2[off + 26..]
    ensures m3[off + 26..off + pktLen] == m1[off + 26..off + pktLen]
    ensures m3[..off] == m1[..off] && m3[off + pktLen..] == m1[off + pktLen..]
  {
    assert m2[off + 26..] == m2[off + 18..][8..] == m1[off + 18..][8..] == m1[off + 26..];
    assert m3[off + 26..off + pktLen] == m3[off + 26..][..pktLen - 26];
    assert m1[off + 26..off + pktLen] == m1[off + 26..][..pktLen - 26];
    assert m3[off + pktLen..] == m3[off + 26..][pktLen - 26..];
    assert m1[off + pktLen..] == m1[off + 26..][pktLen - 26..];
  }

  lemma SubSlice(m: seq<Byte>, a: nat, b: nat, c: nat, d: nat)
    requires a <= b <= |m| && c <= d <= b - a
    ensures m[a..b][c..d] == m[a + c..a + d]
  {
    forall i | 0 <= i < d - c ensures m[a..b][c..d][i] == m[a + c..a + d][i] {
      assert m[a..b][c..d][i] == m[a..b][c + i];
    }
  }

  datatype ForwardResult = OK | HOP_LIMIT | NEIGHBOR_MISS

  class Packet {
    const buf: array<Byte>
    var dataOff: nat
    var pktLen: nat

    ghost predicate Valid()
      reads this
    {
      dataOff + pktLen <= buf.Length
    }

    ghost function Frame(): seq<Byte>
      reads this, buf
      requires Valid()
    {
      buf[dataOff..dataOff + pktLen]
    }

    constructor (memory: array<Byte>, off: nat, len: nat)
      requires off + len <= memory.Length
      ensures Valid() && buf == memory && dataOff == off && pktLen == len
    {
      buf, dataOff, pktLen := memory, off, len;
    }

    method Write(at: nat, b: seq<Byte>)
      requires at + |b| <= buf.Length
      modifies buf
      ensures buf[..] == Put(old(buf[..]), at, b)
    {
      var i := 0;
      while i < |b|
        invariant 0 <= i <= |b|
        invariant forall j :: 0 <= j < buf.Length ==>
                    buf[j] == if at <= j < at + i then b[j - at] else old(buf[j])
      {
        buf[at + i] := b[i];
        i := i + 1;
      }
    }

    /** A copy downwards inside the buffer, lowest byte first; the ranges may overlap. */
    method CopyDown(to: nat, from: nat, n: nat)
      requires to <= from && from + n <= buf.Length
      modifies buf
      ensures buf[..] == Put(old(buf[..]), to, old(buf[from..from + n]))
    {
      ghost var s := buf[from..from + n];
      var i := 0;
      while i < n
        invariant 0 <= i <= n
        invariant forall j :: 0 <= j < buf.Length ==>
                    buf[j] == if to <= j < to + i then s[j - to] else old(buf[j])
      {
        buf[to + i] := buf[from + i];
        i := i + 1;
      }
    }

    method DecrementHop(ip: nat, end: nat)
      requires ip + IP6_LEN <= end <= buf.Length
      modifies buf
      ensures buf[..] == Put(old(buf[..]), ip, Hop(old(buf[ip..end])))
    {
      buf[ip + 7] := if buf[ip + 7] == 0 then 255 else buf[ip + 7] - 1;
    }

    method Relabel(src: Mac, dst: Mac, inner: seq<Byte>)
      requires dataOff + L2_LEN <= buf.Length && |inner| == 2
      modifies buf
      ensures buf[..] == Relabelled(old(buf[..]), dataOff, src, dst, inner)
    {
      Write(dataOff + 6, src);
      Write(dataOff, dst);
      Write(dataOff + 16, inner);
    }

    /** Both headers, one after the other, eight bytes down. */
    method MoveHeadersDown()
      requires dataOff >= PPPOE_HDR_LEN && dataOff + L2_LEN <= buf.Length
      modifies buf
      ensures buf[..] == Moved(old(buf[..]), dataOff, dataOff - 8)
    {
      CopyDown(dataOff - 8, dataOff, 14);
      CopyDown(dataOff + 6, dataOff + 14, 4);
    }

    /** Both headers eight bytes up, through temporaries. */
    method MoveHeadersUp()
      requires dataOff + L2_LEN + PPPOE_HDR_LEN <= buf.Length
      modifies buf
      ensures buf[..] == MovedUp(old(buf[..]), dataOff)
    {
      var tmpEth, tmpVlan := buf[dataOff..dataOff + 14], buf[dataOff + 14..dataOff + 18];
      Write(dataOff + 8, tmpEth);
      Write(dataOff + 22, tmpVlan);
    }

    /** ipv6_lan_to_wan_encap */
    method LanToWanEncap(wanMac: Mac, pppMac: Mac, session: seq<Byte>)
      requires Valid() && dataOff >= PPPOE_HDR_LEN && pktLen >= L2_LEN + IP6_LEN && |session| == 2
      modifies this, buf
      ensures Valid() && dataOff == old(dataOff) - PPPOE_HDR_LEN && pktLen == old(pktLen) + PPPOE_HDR_LEN
      ensures Frame() == Encapsulated(old(Frame()), wanMac, pppMac, session)
      ensures buf[..dataOff] == old(buf[..dataOff - PPPOE_HDR_LEN])
      ensures buf[dataOff + pktLen..] == old(buf[dataOff + pktLen..])
    {
      ghost var m := buf[..];
      var off := dataOff;
      EncapMemoryIsFrame(m, off, pktLen, wanMac, pppMac, session);
      DecrementHop(off + L2_LEN, off + pktLen);
      ghost var m1 := buf[..];
      Relabel(wanMac, pppMac, ETH_P_PPP_SES);
      MoveHeadersDown();
      assert buf[..] == Moved(Relabelled(m1, off, wanMac, pppMac, ETH_P_PPP_SES), off, off - 8);
      Write(off + 10, PppoeHeader(pktLen, session));
      assert buf[..] == EncapMemory(m, off, pktLen, wanMac, pppMac, session);
      dataOff := dataOff - PPPOE_HDR_LEN;
      pktLen := pktLen + PPPOE_HDR_LEN;
    }

    /** The rewriting half of ipv6_wan_to_lan_forward. */
    method Decapsulate(lanMac: Mac, hostMac: Mac)
      requires Valid() && pktLen >= L2_LEN + PPPOE_HDR_LEN + IP6_LEN
      modifies this, buf
      ensures Valid() && dataOff == old(dataOff) + PPPOE_HDR_LEN && pktLen == old(pktLen) - PPPOE_HDR_LEN
      ensures Frame() == Decapsulated(old(Frame()), lanMac, hostMac)
      ensures buf[..old(dataOff)] == old(buf[..dataOff])
      ensures buf[old(dataOff + pktLen)..] == old(buf[dataOff + pktLen..])
    {
      ghost var m := buf[..];
      var off := dataOff;
      DecapMemoryIsFrame(m, off, pktLen, lanMac, hostMac);
      DecrementHop(off + 26, off + pktLen);
      Relabel(lanMac, hostMac, FRAME_TYPE_IPV6);
      MoveHeadersUp();
      assert buf[..] == DecapMemory(m, off, pktLen, lanMac, hostMac);
      dataOff := dataOff + PPPOE_HDR_LEN;
      pktLen := pktLen - PPPOE_HDR_LEN;
    }

    /** ipv6_wan_to_lan_forward, with the neighbor cache as a map; unless OK, nothing is touched. */
    method WanToLanForward(neighbors: map<seq<Byte>, Mac>, lanMac: Mac) returns (r: ForwardResult)
      requires Valid() && pktLen >= L2_LEN + PPPOE_HDR_LEN + IP6_LEN
      modifies this, buf
      ensures Valid()
      ensures var ip := old(Frame())[26..];
              && (r == HOP_LIMIT <==> ip[7] <= 1)
              && (r == NEIGHBOR_MISS <==> ip[7] > 1 && Destination(ip) !in neighbors)
              && (r == OK ==> Frame() == Decapsulated(old(Frame()), lanMac, neighbors[Destination(ip)])
                              && dataOff == old(dataOff) + PPPOE_HDR_LEN && pktLen == old(pktLen) - PPPOE_HDR_LEN)
      ensures r != OK ==> buf[..] == old(buf[..]) && dataOff == old(dataOff) && pktLen == old(pktLen)
      ensures buf[..old(dataOff)] == old(buf[..dataOff])
      ensures buf[old(dataOff + pktLen)..] == old(buf[dataOff + pktLen..])
    {
      ghost var m := buf[..];
      var off := dataOff;
      var dst := buf[off + 26 + 24..off + 26 + 40];
      assert Frame()[26..] == buf[off + 26..off + pktLen];
      SubSlice(m, off + 26, off + pktLen, 24, 40);
      assert dst == m[off + 50..off + 66] && m[off + 26..off + pktLen] == buf[off + 26..off + pktLen];
      assert buf[off + 33] == Frame()[26..][7];
      if buf[off + 33] <= 1 { return HOP_LIMIT; }
      if dst !in neighbors { return NEIGHBOR_MISS; }
      Decapsulate(lanMac, neighbors[dst]);
      r := OK;
    }
  }
}
