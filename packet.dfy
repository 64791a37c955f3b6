/** The per-packet view of an IPv4 packet (`src/packet.rs`): decoding the
    header and transport ports out of the packet buffer (section 3.1 of
    RFC 791, section 3.1 of RFC 793, RFC 768, RFC 792), and writing a
    translated context back into the buffer in place, refreshing the IPv4
    header checksum in full and the TCP/UDP checksum incrementally. */
module Packet {
  import opened Types
  import Checksum

  const PROTO_ICMP: byte := 1
  const PROTO_TCP: byte := 6
  const PROTO_UDP: byte := 17

  /** The fixed 20-byte IPv4 header (`Ipv4Hdr`); multi-byte fields other
      than the checksum stay raw bytes, as in the source struct. */
  datatype Ipv4Hdr = Ipv4Hdr(
    vhl: byte,
    tos: byte,
    len: Bytes2,
    id: Bytes2,
    offset: Bytes2,
    ttl: byte,
    proto: byte,
    chksum: u16,
    src: Addr,
    dst: Addr)

  /** `PacketContext`: the decoded header, the transport ports (for ICMP the
      echo identifier in `srcPort`), the dirty flag, and the interface the
      packet targets now and the one it was parsed on. */
  datatype PacketContext = PacketContext(
    ipHdr: Ipv4Hdr,
    srcPort: u16,
    dstPort: u16,
    needsUpdate: bool,
    iface: NetIf,
    origIface: NetIf)

  /** The version nibble, `vhl >> 4`. */
  function Version(vhl: byte): nat
  {
    vhl / 16
  }

  /** The header length in bytes, `(vhl & 0x0F) * 4`. */
  function Ihl(vhl: byte): nat
  {
    (vhl % 16) * 4
  }

  /** What decoding accepts: IPv4 with a header length in [20, 60]. */
  predicate IsIpv4Header(vhl: byte)
  {
    Version(vhl) == 4 && 20 <= Ihl(vhl) <= 60
  }

  /** Bytes past the IP header that decoding reads: the two ports of TCP and
      UDP, the first 8 bytes of an ICMP message. */
  function ParseNeed(proto: byte): nat
  {
    if proto == PROTO_TCP || proto == PROTO_UDP then 4
    else if proto == PROTO_ICMP then 8
    else 0
  }

  /** Bytes past the IP header that the rewrite touches: the 20-byte TCP
      header, the 8-byte UDP header, nothing otherwise. */
  function ApplyNeed(proto: byte): nat
  {
    if proto == PROTO_TCP then 20
    else if proto == PROTO_UDP then 8
    else 0
  }

  /** The buffer holds every byte decoding reads. */
  predicate Readable(b: seq<byte>)
  {
    |b| >= 20 && (IsIpv4Header(b[0]) ==> |b| >= Ihl(b[0]) + ParseNeed(b[9]))
  }

  /** The buffer holds every byte decoding reads and the rewrite writes. */
  predicate Writable(b: seq<byte>)
  {
    Readable(b) && (IsIpv4Header(b[0]) ==> |b| >= Ihl(b[0]) + ApplyNeed(b[9]))
  }

  /** The transport ports as decoded: TCP/UDP ports at L4 offsets 0 and 2,
      the ICMP identifier at L4 offset 4 with a zero destination, and (0, 0)
      for any other protocol. */
  function DecodePorts(b: seq<byte>, ihl: nat, proto: byte): (u16, u16)
    requires |b| >= ihl + ParseNeed(proto)
  {
    if proto == PROTO_TCP || proto == PROTO_UDP then (WordAt(b, ihl), WordAt(b, ihl + 2))
    else if proto == PROTO_ICMP then (WordAt(b, ihl + 4), 0)
    else (0, 0)
  }

  /** The decoding half of `from_pkt`, on the packet's bytes. It refuses
      exactly a non-IPv4 version or a header length outside [20, 60]; a
      fresh context is clean and targets the interface it was parsed on. */
  function Decode(iface: NetIf, b: seq<byte>): (r: Option<PacketContext>)
    requires Readable(b)
    ensures r.Some? <==> IsIpv4Header(b[0])
    ensures r.Some? ==> !r.value.needsUpdate && r.value.iface == iface && r.value.origIface == iface
  {
    var vhl := b[0];
    if !IsIpv4Header(vhl) then None
    else
      var hdr := Ipv4Hdr(vhl, b[1], b[2..4], b[4..6], b[6..8], b[8], b[9],
                         WordAt(b, 10), AddrAt(b, 12), AddrAt(b, 16));
      var ports := DecodePorts(b, Ihl(vhl), b[9]);
      Some(PacketContext(hdr, ports.0, ports.1, false, iface, iface))
  }

  /** A network buffer fragment (`net_buf`): only its data pointer matters. */
  class NetBuf {
    const data: array?<byte>

    constructor (data: array?<byte>)
      ensures this.data == data
    {
      this.data := data;
    }
  }

  /** A raw packet (`net_pkt`): the interface it targets, which the rewrite
      may change, and its first fragment, whose bytes it may change. */
  class NetPkt {
    var iface: NetIf
    const frags: NetBuf?

    constructor (iface: NetIf, frags: NetBuf?)
      ensures this.iface == iface && this.frags == frags
    {
      this.iface := iface;
      this.frags := frags;
    }
  }

  /** Non-null packet, fragment and data pointer. */
  predicate HasData(pkt: NetPkt?)
  {
    pkt != null && pkt.frags != null && pkt.frags.data != null
  }

  /** The objects a packet operation may read or write. */
  function Footprint(pkt: NetPkt?): set<object>
  {
    if pkt == null then {}
    else if HasData(pkt) then {pkt, pkt.frags.data}
    else {pkt}
  }

  /** `PacketContext::from_pkt`: nothing for a null packet, fragment or data
      pointer; otherwise the decoding of the buffer on the packet's current
      interface. */
  function FromPkt(pkt: NetPkt?): (r: Option<PacketContext>)
    reads pkt, if HasData(pkt) then {pkt.frags.data} else {}
    requires HasData(pkt) ==> Readable(pkt.frags.data[..])
    ensures !HasData(pkt) ==> r.None?
    ensures HasData(pkt) ==> r.Some? == IsIpv4Header(pkt.frags.data[0])
    ensures r.Some? ==> r.value.iface == pkt.iface && r.value.origIface == pkt.iface
  {
    if !HasData(pkt) then None
    else Decode(pkt.iface, pkt.frags.data[..])
  }

  // ---------------------------------------------------------------------
  // The rewrite (`apply_to_pkt`) as a function of the old buffer.
  // ---------------------------------------------------------------------

  /** The context can be written into a buffer `b`. */
  predicate ApplyReady(ctx: PacketContext, b: seq<byte>)
  {
    20 <= Ihl(ctx.ipHdr.vhl) && |b| >= Ihl(ctx.ipHdr.vhl) + ApplyNeed(ctx.ipHdr.proto)
  }

  /** The interface the packet targets after the rewrite. */
  function NewIface(ctx: PacketContext, current: NetIf): NetIf
  {
    if ctx.needsUpdate && ctx.iface != NullIf && ctx.iface != ctx.origIface then ctx.iface
    else current
  }

  /** Bytes 12..20 replaced by the source and destination addresses. */
  function WriteAddrs(b: seq<byte>, src: Addr, dst: Addr): (r: seq<byte>)
    requires |b| >= 20
    ensures |r| == |b|
    ensures forall i :: 0 <= i < |b| ==>
      r[i] == if 12 <= i < 16 then src[i - 12] else if 16 <= i < 20 then dst[i - 16] else b[i]
  {
    b[..12] + src + dst + b[20..]
  }

  /** The IP stage: addresses written to bytes 12..20; if either changed, the
      header checksum is recomputed over the header with its checksum field
      zeroed and stored in bytes 10..12, so that the header checks to 0;
      otherwise the checksum field is left as it was. No other byte changes. */
  function IpStage(ctx: PacketContext, b: seq<byte>): (r: seq<byte>)
    requires ApplyReady(ctx, b)
    ensures |r| == |b|
    ensures forall i :: 0 <= i < |b| && !(10 <= i < 20) ==> r[i] == b[i]
    ensures AddrAt(r, 12) == ctx.ipHdr.src && AddrAt(r, 16) == ctx.ipHdr.dst
    ensures !AddrsChanged(ctx, b) ==> r[10] == b[10] && r[11] == b[11]
  {
    var ihl := Ihl(ctx.ipHdr.vhl);
    var w := WriteAddrs(b, ctx.ipHdr.src, ctx.ipHdr.dst);
    assert w[12..16] == ctx.ipHdr.src && w[16..20] == ctx.ipHdr.dst;
    if AddrsChanged(ctx, b) then
      var r := RefreshIpChecksum(w, ihl);
      SameAddrs(w, r);
      r
    else w
  }

  /** Two buffers that agree on bytes 12..20 hold the same addresses. */
  lemma SameAddrs(w: seq<byte>, r: seq<byte>)
    requires |w| == |r| >= 20
    requires forall i :: 0 <= i < |w| && i != 10 && i != 11 ==> r[i] == w[i]
    ensures AddrAt(r, 12) == AddrAt(w, 12) && AddrAt(r, 16) == AddrAt(w, 16)
  {
    assert r[12..16] == w[12..16];
    assert r[16..20] == w[16..20];
  }

  /** The addresses in the context differ from those in the buffer. */
  predicate AddrsChanged(ctx: PacketContext, b: seq<byte>)
    requires |b| >= 20
  {
    AddrAt(b, 12) != ctx.ipHdr.src || AddrAt(b, 16) != ctx.ipHdr.dst
  }

  /** The header checksum recomputed over the first `ihl` bytes with the
      checksum field zeroed, and stored in bytes 10..12: afterwards the
      header checks to 0, and only bytes 10..12 have changed. */
  function RefreshIpChecksum(b: seq<byte>, ihl: nat): (r: seq<byte>)
    requires 20 <= ihl <= |b|
    ensures |r| == |b|
    ensures forall i :: 0 <= i < |b| && i != 10 && i != 11 ==> r[i] == b[i]
  {
    var z := b[10 := 0][11 := 0];
    var c := Checksum.InternetChecksum(z[..ihl]);
    Put16Frame(z, 10, c);
    Put16(z, 10, c)
  }

  /** After the refresh the header checks to 0 (RFC 1071 self-check). */
  lemma RefreshSelfChecks(b: seq<byte>, ihl: nat)
    requires 20 <= ihl <= |b|
    ensures Checksum.InternetChecksum(RefreshIpChecksum(b, ihl)[..ihl]) == 0
  {
    var z := b[10 := 0][11 := 0];
    var c := Checksum.InternetChecksum(z[..ihl]);
    assert RefreshIpChecksum(b, ihl) == Put16(z, 10, c);
    SelfCheckPrefix(z, ihl, c);
  }

  /** Storing the checksum of the first `ihl` bytes, computed with the
      checksum field zero, makes those bytes check to 0. */
  lemma SelfCheckPrefix(z: seq<byte>, ihl: nat, c: u16)
    requires 20 <= ihl <= |z| && z[10] == 0 && z[11] == 0
    requires c == Checksum.InternetChecksum(z[..ihl])
    ensures Checksum.InternetChecksum(Put16(z, 10, c)[..ihl]) == 0
  {
    Put16Prefix(z, 10, c, ihl);
    Checksum.SelfCheck(z[..ihl], 10);
  }

  /** The `update16!` step: an incremental update, skipped when the word did
      not change. */
  function Update16(csum: u16, oldVal: u16, newVal: u16): u16
  {
    if oldVal != newVal then Checksum.IncrementalUpdate(csum, oldVal, newVal) else csum
  }

  /** Updates for an address that changed: one per 16-bit half. */
  function AddrUpdate(csum: u16, oldAddr: Addr, newAddr: Addr): u16
  {
    if oldAddr != newAddr then
      Update16(Update16(csum, WordAt(oldAddr, 0), WordAt(newAddr, 0)), WordAt(oldAddr, 2), WordAt(newAddr, 2))
    else csum
  }

  /** The transport checksum after the rewrite: the old checksum updated for
      the source port, the destination port, and the 16-bit halves of the
      pseudo-header addresses that changed. */
  function L4Checksum(c0: u16, oldSrcPort: u16, oldDstPort: u16, oldSrc: Addr, oldDst: Addr,
                      ctx: PacketContext): u16
  {
    var c := Update16(Update16(c0, oldSrcPort, ctx.srcPort), oldDstPort, ctx.dstPort);
    AddrUpdate(AddrUpdate(c, oldSrc, ctx.ipHdr.src), oldDst, ctx.ipHdr.dst)
  }

  /** The transport stage on TCP: the new ports in L4 bytes 0..4 and the
      updated checksum in L4 bytes 16..18; nothing else changes. */
  function TcpStage(ctx: PacketContext, b: seq<byte>, oldSrc: Addr, oldDst: Addr): (r: seq<byte>)
    requires |b| >= Ihl(ctx.ipHdr.vhl) + 20
    ensures |r| == |b|
    ensures var l4 := Ihl(ctx.ipHdr.vhl);
      forall i :: 0 <= i < |b| && !(l4 <= i < l4 + 4) && !(l4 + 16 <= i < l4 + 18) ==> r[i] == b[i]
    ensures var l4 := Ihl(ctx.ipHdr.vhl);
      && WordAt(r, l4) == ctx.srcPort && WordAt(r, l4 + 2) == ctx.dstPort
      && WordAt(r, l4 + 16) ==
         L4Checksum(WordAt(b, l4 + 16), WordAt(b, l4), WordAt(b, l4 + 2), oldSrc, oldDst, ctx)
  {
    var l4 := Ihl(ctx.ipHdr.vhl);
    var csum := L4Checksum(WordAt(b, l4 + 16), WordAt(b, l4), WordAt(b, l4 + 2), oldSrc, oldDst, ctx);
    var p1 := Put16(b, l4, ctx.srcPort);
    var p2 := Put16(p1, l4 + 2, ctx.dstPort);
    Put16Frame(b, l4, ctx.srcPort);
    Put16Frame(p1, l4 + 2, ctx.dstPort);
    Put16Frame(p2, l4 + 16, csum);
    Put16(p2, l4 + 16, csum)
  }

  /** The transport stage on UDP: the new ports in L4 bytes 0..4; the
      checksum word at L4 bytes 6..8 is updated unless it is 0 ("no
      checksum"), which stays 0; nothing else changes. */
  function UdpStage(ctx: PacketContext, b: seq<byte>, oldSrc: Addr, oldDst: Addr): (r: seq<byte>)
    requires |b| >= Ihl(ctx.ipHdr.vhl) + 8
    ensures |r| == |b|
    ensures var l4 := Ihl(ctx.ipHdr.vhl);
      forall i :: 0 <= i < |b| && !(l4 <= i < l4 + 4) && !(l4 + 6 <= i < l4 + 8) ==> r[i] == b[i]
    ensures var l4 := Ihl(ctx.ipHdr.vhl);
      var c0 := WordAt(b, l4 + 6);
      && WordAt(r, l4) == ctx.srcPort && WordAt(r, l4 + 2) == ctx.dstPort
      && WordAt(r, l4 + 6) ==
         if c0 == 0 then 0 else L4Checksum(c0, WordAt(b, l4), WordAt(b, l4 + 2), oldSrc, oldDst, ctx)
  {
    var l4 := Ihl(ctx.ipHdr.vhl);
    var c0 := WordAt(b, l4 + 6);
    var p1 := Put16(b, l4, ctx.srcPort);
    var p2 := Put16(p1, l4 + 2, ctx.dstPort);
    Put16Frame(b, l4, ctx.srcPort);
    Put16Frame(p1, l4 + 2, ctx.dstPort);
    if c0 != 0 then
      var csum := L4Checksum(c0, WordAt(b, l4), WordAt(b, l4 + 2), oldSrc, oldDst, ctx);
      Put16Frame(p2, l4 + 6, csum);
      Put16(p2, l4 + 6, csum)
    else p2
  }
  /** The TCP stage as its three stores. */
  lemma TcpStageStores(ctx: PacketContext, b: seq<byte>, oldSrc: Addr, oldDst: Addr, c: u16)
    requires |b| >= Ihl(ctx.ipHdr.vhl) + 20
    requires var l4 := Ihl(ctx.ipHdr.vhl);
      c == L4Checksum(WordAt(b, l4 + 16), WordAt(b, l4), WordAt(b, l4 + 2), oldSrc, oldDst, ctx)
    ensures var l4 := Ihl(ctx.ipHdr.vhl);
      TcpStage(ctx, b, oldSrc, oldDst) == Put16(Put16(Put16(b, l4, ctx.srcPort), l4 + 2, ctx.dstPort), l4 + 16, c)
  {
  }

  /** The UDP stage as its stores: two, or three when the stored checksum
      is not zero. */
  lemma UdpStageStores(ctx: PacketContext, b: seq<byte>, oldSrc: Addr, oldDst: Addr, c: u16)
    requires |b| >= Ihl(ctx.ipHdr.vhl) + 8
    ensures var l4 := Ihl(ctx.ipHdr.vhl);
      WordAt(b, l4 + 6) == 0 ==>
        UdpStage(ctx, b, oldSrc, oldDst) == Put16(Put16(b, l4, ctx.srcPort), l4 + 2, ctx.dstPort)
    ensures var l4 := Ihl(ctx.ipHdr.vhl);
      WordAt(b, l4 + 6) != 0 && c == L4Checksum(WordAt(b, l4 + 6), WordAt(b, l4), WordAt(b, l4 + 2), oldSrc, oldDst, ctx) ==>
        UdpStage(ctx, b, oldSrc, oldDst) == Put16(Put16(Put16(b, l4, ctx.srcPort), l4 + 2, ctx.dstPort), l4 + 6, c)
  {
  }


  /** The bytes `apply_to_pkt` may write: the IPv4 checksum and addresses
      (bytes 10..20) and, for TCP and UDP, the ports and checksum word of the
      transport header. */
  predicate Rewritten(ctx: PacketContext, i: nat)
  {
    var l4 := Ihl(ctx.ipHdr.vhl);
    || 10 <= i < 20
    || (ctx.ipHdr.proto == PROTO_TCP && (l4 <= i < l4 + 4 || l4 + 16 <= i < l4 + 18))
    || (ctx.ipHdr.proto == PROTO_UDP && (l4 <= i < l4 + 4 || l4 + 6 <= i < l4 + 8))
  }

  /** The bytes of the buffer after `apply_to_pkt` with a dirty context:
      every byte outside `Rewritten` keeps its value, and the IPv4 header
      is that of the IP stage. */
  function ApplyBytes(ctx: PacketContext, b: seq<byte>): (r: seq<byte>)
    requires ApplyReady(ctx, b)
    ensures |r| == |b|
    ensures forall i :: 0 <= i < |b| && !Rewritten(ctx, i) ==> r[i] == b[i]
    ensures r[..Ihl(ctx.ipHdr.vhl)] == IpStage(ctx, b)[..Ihl(ctx.ipHdr.vhl)]
  {
    var ip := IpStage(ctx, b);
    var ihl := Ihl(ctx.ipHdr.vhl);
    if ctx.ipHdr.proto == PROTO_TCP then
      var r := TcpStage(ctx, ip, AddrAt(b, 12), AddrAt(b, 16));
      assert r[..ihl] == ip[..ihl];
      r
    else if ctx.ipHdr.proto == PROTO_UDP then
      var r := UdpStage(ctx, ip, AddrAt(b, 12), AddrAt(b, 16));
      assert r[..ihl] == ip[..ihl];
      r
    else ip
  }

  // ---------------------------------------------------------------------
  // The rewrite as the source performs it, in place.
  // ---------------------------------------------------------------------

  /** The rewrite of a TCP or UDP packet: the header stage, then the
      transport stage over it with the old addresses. */
  lemma ApplyBytesStages(ctx: PacketContext, b: seq<byte>)
    requires ApplyReady(ctx, b)
    ensures ctx.ipHdr.proto == PROTO_TCP ==>
      ApplyBytes(ctx, b) == TcpStage(ctx, IpStage(ctx, b), AddrAt(b, 12), AddrAt(b, 16))
    ensures ctx.ipHdr.proto == PROTO_UDP ==>
      ApplyBytes(ctx, b) == UdpStage(ctx, IpStage(ctx, b), AddrAt(b, 12), AddrAt(b, 16))
  {
  }

  /** `apply_to_pkt`: with a clean context or a null packet nothing happens;
      otherwise the packet is retargeted to a new non-null interface, and a
      buffer, when there is one, is rewritten to `ApplyBytes`. */
  method ApplyToPkt(ctx: PacketContext, pkt: NetPkt?)
    requires ctx.needsUpdate && HasData(pkt) ==> ApplyReady(ctx, pkt.frags.data[..])
    modifies Footprint(pkt)
    ensures pkt != null ==> pkt.iface == NewIface(ctx, old(pkt.iface))
    ensures HasData(pkt) ==>
      pkt.frags.data[..] == if ctx.needsUpdate then ApplyBytes(ctx, old(pkt.frags.data[..])) else old(pkt.frags.data[..])
  {
    if pkt == null || !ctx.needsUpdate {
      return;
    }
    if ctx.iface != NullIf && ctx.iface != ctx.origIface {
      pkt.iface := ctx.iface;
    }
    var frags := pkt.frags;
    if frags == null {
      return;
    }
    var buf := frags.data;
    if buf == null {
      return;
    }
    var ihl := Ihl(ctx.ipHdr.vhl);
    ghost var b0 := buf[..];
    var oldSrc := AddrAt(buf[..], 12);
    var oldDst := AddrAt(buf[..], 16);
    WriteIpHeader(buf, ctx);
    if ctx.ipHdr.proto == PROTO_TCP {
      RewriteTcp(buf, ctx, oldSrc, oldDst);
    } else if ctx.ipHdr.proto == PROTO_UDP {
      RewriteUdp(buf, ctx, oldSrc, oldDst);
    }
  }

  /** The IP stage in place: copy the addresses, and if either changed zero
      the checksum field, checksum the header and store the result. */
  method WriteIpHeader(buf: array<byte>, ctx: PacketContext)
    requires ApplyReady(ctx, buf[..])
    modifies buf
    ensures buf[..] == IpStage(ctx, old(buf[..]))
  {
    var ihl := Ihl(ctx.ipHdr.vhl);
    var oldSrc := AddrAt(buf[..], 12);
    var oldDst := AddrAt(buf[..], 16);
    CopyAddrs(buf, ctx.ipHdr.src, ctx.ipHdr.dst);
    if oldSrc != ctx.ipHdr.src || oldDst != ctx.ipHdr.dst {
      UpdateIpChecksum(buf, ihl);
    }
  }

  /** Zero the checksum field, checksum the header, store the result. */
  method UpdateIpChecksum(buf: array<byte>, ihl: nat)
    requires 20 <= ihl <= 60 && ihl <= buf.Length
    modifies buf
    ensures buf[..] == RefreshIpChecksum(old(buf[..]), ihl)
  {
    ghost var w := buf[..];
    buf[10] := 0;
    buf[11] := 0;
    ghost var z := buf[..];
    assert z == w[10 := 0][11 := 0];
    var header := buf[..ihl];
    assert header == z[..ihl];
    var csum := Checksum.IpChecksum(header);
    buf[10] := Hi(csum);
    buf[11] := Lo(csum);
    assert buf[..] == z[10 := Hi(csum)][11 := Lo(csum)];
  }

  /** The two `copy_nonoverlapping` calls that store the addresses. */
  method CopyAddrs(buf: array<byte>, src: Addr, dst: Addr)
    requires buf.Length >= 20
    modifies buf
    ensures buf[..] == WriteAddrs(old(buf[..]), src, dst)
  {
    ghost var b0 := buf[..];
    forall i | 0 <= i < 4 {
      buf[12 + i] := src[i];
    }
    forall i | 0 <= i < 4 {
      buf[16 + i] := dst[i];
    }
    ghost var w := WriteAddrs(b0, src, dst);
    assert forall i | 0 <= i < buf.Length :: buf[i] == w[i];
  }

  /** The update chain of `update16!` steps, threading one checksum value. */
  method ChainChecksum(c0: u16, oldSrcPort: u16, oldDstPort: u16, oldSrc: Addr, oldDst: Addr,
                       ctx: PacketContext) returns (csum: u16)
    ensures csum == L4Checksum(c0, oldSrcPort, oldDstPort, oldSrc, oldDst, ctx)
  {
    csum := c0;
    if oldSrcPort != ctx.srcPort {
      csum := Checksum.UpdateChecksum(csum, oldSrcPort, ctx.srcPort);
    }
    if oldDstPort != ctx.dstPort {
      csum := Checksum.UpdateChecksum(csum, oldDstPort, ctx.dstPort);
    }
    var oldSrcHi, oldSrcLo := Be16(oldSrc[0], oldSrc[1]), Be16(oldSrc[2], oldSrc[3]);
    var newSrcHi, newSrcLo := Be16(ctx.ipHdr.src[0], ctx.ipHdr.src[1]), Be16(ctx.ipHdr.src[2], ctx.ipHdr.src[3]);
    var oldDstHi, oldDstLo := Be16(oldDst[0], oldDst[1]), Be16(oldDst[2], oldDst[3]);
    var newDstHi, newDstLo := Be16(ctx.ipHdr.dst[0], ctx.ipHdr.dst[1]), Be16(ctx.ipHdr.dst[2], ctx.ipHdr.dst[3]);
    if oldSrc != ctx.ipHdr.src {
      if oldSrcHi != newSrcHi {
        csum := Checksum.UpdateChecksum(csum, oldSrcHi, newSrcHi);
      }
      if oldSrcLo != newSrcLo {
        csum := Checksum.UpdateChecksum(csum, oldSrcLo, newSrcLo);
      }
    }
    if oldDst != ctx.ipHdr.dst {
      if oldDstHi != newDstHi {
        csum := Checksum.UpdateChecksum(csum, oldDstHi, newDstHi);
      }
      if oldDstLo != newDstLo {
        csum := Checksum.UpdateChecksum(csum, oldDstLo, newDstLo);
      }
    }
  }

  /** `copy_from_slice(&v.to_be_bytes())` into `buf[k..k+2]`. */
  method Store16(buf: array<byte>, k: nat, v: u16)
    requires k + 1 < buf.Length
    modifies buf
    ensures buf[..] == Put16(old(buf[..]), k, v)
  {
    buf[k], buf[k + 1] := Hi(v), Lo(v);
  }

  /** The TCP branch in place. */
  method RewriteTcp(buf: array<byte>, ctx: PacketContext, oldSrc: Addr, oldDst: Addr)
    requires buf.Length >= Ihl(ctx.ipHdr.vhl) + 20
    modifies buf
    ensures buf[..] == TcpStage(ctx, old(buf[..]), oldSrc, oldDst)
  {
    var l4 := Ihl(ctx.ipHdr.vhl);
    ghost var b0 := buf[..];
    var oldSrcPort := Be16(buf[l4], buf[l4 + 1]);
    var oldDstPort := Be16(buf[l4 + 2], buf[l4 + 3]);
    var csum := Be16(buf[l4 + 16], buf[l4 + 17]);
    assert csum == WordAt(b0, l4 + 16) && oldSrcPort == WordAt(b0, l4) && oldDstPort == WordAt(b0, l4 + 2);
    Store16(buf, l4, ctx.srcPort);
    Store16(buf, l4 + 2, ctx.dstPort);
    ghost var p2 := buf[..];
    assert p2 == Put16(Put16(b0, l4, ctx.srcPort), l4 + 2, ctx.dstPort);
    csum := ChainChecksum(csum, oldSrcPort, oldDstPort, oldSrc, oldDst, ctx);
    TcpStageStores(ctx, b0, oldSrc, oldDst, csum);
    Store16(buf, l4 + 16, csum);
  }

  /** The UDP branch in place; a zero checksum is left as it is. */
  method RewriteUdp(buf: array<byte>, ctx: PacketContext, oldSrc: Addr, oldDst: Addr)
    requires buf.Length >= Ihl(ctx.ipHdr.vhl) + 8
    modifies buf
    ensures buf[..] == UdpStage(ctx, old(buf[..]), oldSrc, oldDst)
  {
    var l4 := Ihl(ctx.ipHdr.vhl);
    ghost var b0 := buf[..];
    var oldSrcPort := Be16(buf[l4], buf[l4 + 1]);
    var oldDstPort := Be16(buf[l4 + 2], buf[l4 + 3]);
    var csum := Be16(buf[l4 + 6], buf[l4 + 7]);
    assert csum == WordAt(b0, l4 + 6) && oldSrcPort == WordAt(b0, l4) && oldDstPort == WordAt(b0, l4 + 2);
    Store16(buf, l4, ctx.srcPort);
    Store16(buf, l4 + 2, ctx.dstPort);
    ghost var p := buf[..];
    assert p == Put16(Put16(b0, l4, ctx.srcPort), l4 + 2, ctx.dstPort);
    if csum != 0 {
      csum := ChainChecksum(csum, oldSrcPort, oldDstPort, oldSrc, oldDst, ctx);
      UdpStageStores(ctx, b0, oldSrc, oldDst, csum);
      Store16(buf, l4 + 6, csum);
    } else {
      UdpStageStores(ctx, b0, oldSrc, oldDst, csum);
    }
  }

}
