/** What the rewrite of `src/packet.rs` guarantees about the bytes it
    produces: that the addresses land in the header, that the IPv4 header
    checksum is valid afterwards, where the TCP/UDP checksum word comes
    from, and that decoding and rewriting are inverse to each other. */
module PacketLemmas {
  import opened Types
  import Checksum
  import opened Packet

  /** The transport header lies past the IPv4 header, so a transport stage
      reads the same words from the IP stage's output as from the original
      buffer. */
  lemma IpStageKeepsTransport(ctx: PacketContext, b: seq<byte>, k: nat)
    requires ApplyReady(ctx, b)
    requires Ihl(ctx.ipHdr.vhl) <= k && k + 1 < |b|
    ensures WordAt(IpStage(ctx, b), k) == WordAt(b, k)
  {
    var ip := IpStage(ctx, b);
    assert ip[k] == b[k] && ip[k + 1] == b[k + 1];
  }

  /** After the rewrite, bytes 12..20 hold the context's addresses. */
  lemma ApplyWritesAddresses(ctx: PacketContext, b: seq<byte>)
    requires ApplyReady(ctx, b)
    ensures AddrAt(ApplyBytes(ctx, b), 12) == ctx.ipHdr.src
    ensures AddrAt(ApplyBytes(ctx, b), 16) == ctx.ipHdr.dst
  {
    var ihl := Ihl(ctx.ipHdr.vhl);
    var r, ip := ApplyBytes(ctx, b), IpStage(ctx, b);
    HeaderPrefix(r, ip, ihl);
  }

  /** Two buffers with the same first `ihl >= 20` bytes hold the same
      addresses and the same checksum word. */
  lemma HeaderPrefix(r: seq<byte>, ip: seq<byte>, ihl: nat)
    requires 20 <= ihl <= |r| && ihl <= |ip| && r[..ihl] == ip[..ihl]
    ensures AddrAt(r, 12) == AddrAt(ip, 12) && AddrAt(r, 16) == AddrAt(ip, 16)
    ensures r[10] == ip[10] && r[11] == ip[11]
  {
    assert r[12..16] == r[..ihl][12..16];
    assert ip[12..16] == ip[..ihl][12..16];
    assert r[16..20] == r[..ihl][16..20];
    assert ip[16..20] == ip[..ihl][16..20];
    assert r[10] == r[..ihl][10] && ip[10] == ip[..ihl][10];
    assert r[11] == r[..ihl][11] && ip[11] == ip[..ihl][11];
  }

  /** The IPv4 header checksum: if an address changed, the stored checksum
      makes the header (IHL bytes) check to 0; otherwise bytes 10..12 keep
      their value. */
  lemma ApplyIpChecksum(ctx: PacketContext, b: seq<byte>)
    requires ApplyReady(ctx, b)
    ensures var r := ApplyBytes(ctx, b);
      var ihl := Ihl(ctx.ipHdr.vhl);
      if AddrsChanged(ctx, b)
      then Checksum.InternetChecksum(r[..ihl]) == 0
      else r[10] == b[10] && r[11] == b[11]
  {
    var ihl := Ihl(ctx.ipHdr.vhl);
    var r, ip := ApplyBytes(ctx, b), IpStage(ctx, b);
    if AddrsChanged(ctx, b) {
      var w := WriteAddrs(b, ctx.ipHdr.src, ctx.ipHdr.dst);
      assert ip == RefreshIpChecksum(w, ihl);
      RefreshSelfChecks(w, ihl);
    } else {
      HeaderPrefix(r, ip, ihl);
    }
  }

  /** TCP: L4 bytes 0..4 hold the new ports and L4 bytes 16..18 the old
      checksum updated for every changed port and changed address half. */
  lemma ApplyTcp(ctx: PacketContext, b: seq<byte>)
    requires ApplyReady(ctx, b) && ctx.ipHdr.proto == PROTO_TCP
    ensures var r := ApplyBytes(ctx, b);
      var l4 := Ihl(ctx.ipHdr.vhl);
      && WordAt(r, l4) == ctx.srcPort
      && WordAt(r, l4 + 2) == ctx.dstPort
      && WordAt(r, l4 + 16) ==
         L4Checksum(WordAt(b, l4 + 16), WordAt(b, l4), WordAt(b, l4 + 2), AddrAt(b, 12), AddrAt(b, 16), ctx)
  {
    var l4 := Ihl(ctx.ipHdr.vhl);
    ApplyBytesStages(ctx, b);
    IpStageKeepsTransport(ctx, b, l4);
    IpStageKeepsTransport(ctx, b, l4 + 2);
    IpStageKeepsTransport(ctx, b, l4 + 16);
  }

  /** UDP: as TCP with the checksum word at L4 bytes 6..8, except that a
      zero checksum ("not computed") stays zero. */
  lemma ApplyUdp(ctx: PacketContext, b: seq<byte>)
    requires ApplyReady(ctx, b) && ctx.ipHdr.proto == PROTO_UDP
    ensures var r := ApplyBytes(ctx, b);
      var l4 := Ihl(ctx.ipHdr.vhl);
      var c0 := WordAt(b, l4 + 6);
      && WordAt(r, l4) == ctx.srcPort
      && WordAt(r, l4 + 2) == ctx.dstPort
      && WordAt(r, l4 + 6) ==
         if c0 == 0 then 0
         else L4Checksum(c0, WordAt(b, l4), WordAt(b, l4 + 2), AddrAt(b, 12), AddrAt(b, 16), ctx)
  {
    var l4 := Ihl(ctx.ipHdr.vhl);
    ApplyBytesStages(ctx, b);
    IpStageKeepsTransport(ctx, b, l4);
    IpStageKeepsTransport(ctx, b, l4 + 2);
    IpStageKeepsTransport(ctx, b, l4 + 6);
  }

  /** Parse followed by a rewrite that changes nothing leaves the buffer
      byte-for-byte identical. */
  lemma ParsedRewriteIsIdentity(iface: NetIf, b: seq<byte>)
    requires Writable(b) && Decode(iface, b).Some?
    ensures ApplyBytes(Decode(iface, b).value.(needsUpdate := true), b) == b
  {
    var ctx := Decode(iface, b).value.(needsUpdate := true);
    IpStageIdentity(ctx, b);
    if b[9] == PROTO_TCP {
      TcpStageIdentity(ctx, b);
    } else if b[9] == PROTO_UDP {
      UdpStageIdentity(ctx, b);
    }
  }

  /** Writing back the stored addresses changes no byte of the header. */
  lemma IpStageIdentity(ctx: PacketContext, b: seq<byte>)
    requires ApplyReady(ctx, b)
    requires AddrAt(b, 12) == ctx.ipHdr.src && AddrAt(b, 16) == ctx.ipHdr.dst
    ensures IpStage(ctx, b) == b
  {
    assert WriteAddrs(b, ctx.ipHdr.src, ctx.ipHdr.dst) == b;
  }

  /** Writing back the stored TCP ports changes no byte. */
  lemma TcpStageIdentity(ctx: PacketContext, b: seq<byte>)
    requires |b| >= Ihl(ctx.ipHdr.vhl) + 20 && |b| >= 20
    requires ctx.srcPort == WordAt(b, Ihl(ctx.ipHdr.vhl)) && ctx.dstPort == WordAt(b, Ihl(ctx.ipHdr.vhl) + 2)
    requires AddrAt(b, 12) == ctx.ipHdr.src && AddrAt(b, 16) == ctx.ipHdr.dst
    ensures TcpStage(ctx, b, AddrAt(b, 12), AddrAt(b, 16)) == b
  {
    var l4 := Ihl(ctx.ipHdr.vhl);
    Put16Same(b, l4);
    Put16Same(b, l4 + 2);
    Put16Same(b, l4 + 16);
    UnchangedPorts(ctx, WordAt(b, l4 + 16), b);
  }

  /** Writing back the stored UDP ports changes no byte. */
  lemma UdpStageIdentity(ctx: PacketContext, b: seq<byte>)
    requires |b| >= Ihl(ctx.ipHdr.vhl) + 8 && |b| >= 20
    requires ctx.srcPort == WordAt(b, Ihl(ctx.ipHdr.vhl)) && ctx.dstPort == WordAt(b, Ihl(ctx.ipHdr.vhl) + 2)
    requires AddrAt(b, 12) == ctx.ipHdr.src && AddrAt(b, 16) == ctx.ipHdr.dst
    ensures UdpStage(ctx, b, AddrAt(b, 12), AddrAt(b, 16)) == b
  {
    var l4 := Ihl(ctx.ipHdr.vhl);
    Put16Same(b, l4);
    Put16Same(b, l4 + 2);
    Put16Same(b, l4 + 6);
    UnchangedPorts(ctx, WordAt(b, l4 + 6), b);
  }

  /** With ports and addresses as already stored, the update chain is
      skipped entirely and leaves the checksum as it was. */
  lemma UnchangedPorts(ctx: PacketContext, c0: u16, b: seq<byte>)
    requires |b| >= Ihl(ctx.ipHdr.vhl) + 4 && |b| >= 20
    requires ctx.srcPort == WordAt(b, Ihl(ctx.ipHdr.vhl)) && ctx.dstPort == WordAt(b, Ihl(ctx.ipHdr.vhl) + 2)
    requires AddrAt(b, 12) == ctx.ipHdr.src && AddrAt(b, 16) == ctx.ipHdr.dst
    ensures L4Checksum(c0, WordAt(b, Ihl(ctx.ipHdr.vhl)), WordAt(b, Ihl(ctx.ipHdr.vhl) + 2),
                       AddrAt(b, 12), AddrAt(b, 16), ctx) == c0
  {
  }

  /** Decoding a rewritten buffer gives back the context's addresses and,
      for TCP and UDP, its ports; the other header fields are those of the
      original buffer, with the checksum as now stored. */
  lemma DecodeAfterApply(iface: NetIf, ctx: PacketContext, b: seq<byte>)
    requires Writable(b) && IsIpv4Header(b[0])
    requires ctx.ipHdr.vhl == b[0] && ctx.ipHdr.proto == b[9]
    ensures ApplyReady(ctx, b)
    ensures var r := ApplyBytes(ctx, b);
      var before := Decode(iface, b).value;
      && Writable(r)
      && Decode(iface, r) == Some(PacketContext(
           before.ipHdr.(chksum := WordAt(r, 10), src := ctx.ipHdr.src, dst := ctx.ipHdr.dst),
           if b[9] == PROTO_TCP || b[9] == PROTO_UDP then ctx.srcPort else before.srcPort,
           if b[9] == PROTO_TCP || b[9] == PROTO_UDP then ctx.dstPort else before.dstPort,
           false, iface, iface))
  {
    var r := ApplyBytes(ctx, b);
    var l4 := Ihl(b[0]);
    assert !Rewritten(ctx, 0) && !Rewritten(ctx, 9);
    assert r[0] == b[0] && r[9] == b[9];
    assert forall i :: 0 <= i < 10 ==> !Rewritten(ctx, i);
    assert r[1] == b[1] && r[8] == b[8];
    assert r[2..4] == b[2..4] && r[4..6] == b[4..6] && r[6..8] == b[6..8];
    ApplyWritesAddresses(ctx, b);
    if b[9] == PROTO_TCP {
      ApplyTcp(ctx, b);
    } else if b[9] == PROTO_UDP {
      ApplyUdp(ctx, b);
    } else if b[9] == PROTO_ICMP {
      assert !Rewritten(ctx, l4 + 4) && !Rewritten(ctx, l4 + 5);
      assert WordAt(r, l4 + 4) == WordAt(b, l4 + 4);
    }
  }

  /** The two 16-bit halves of an address, as the pseudo-header sums them. */
  function Halves(a: Addr): nat
  {
    WordAt(a, 0) + WordAt(a, 2)
  }

  /** One `update16!` step on a checksum that is the complement of a folded
      sum `s` containing the word `m`: the result is the complement of the
      folded sum with `m` replaced by `m'`, provided that sum is not 0. */
  lemma Update16OnSums(s: nat, m: u16, m': u16)
    requires m <= s && s - m + m' > 0
    ensures Update16(0xFFFF - Checksum.Fold(s), m, m') == 0xFFFF - Checksum.Fold(s - m + m')
  {
    if m != m' {
      Checksum.IncrementalOnSums(s, m, m');
    }
  }

  /** The two steps for an address: both halves replaced in the sum. */
  lemma AddrUpdateOnSums(s: nat, oldA: Addr, newA: Addr)
    requires Halves(oldA) <= s && s - Halves(oldA) > 0
    ensures AddrUpdate(0xFFFF - Checksum.Fold(s), oldA, newA) ==
            0xFFFF - Checksum.Fold(s - Halves(oldA) + Halves(newA))
  {
    var c := 0xFFFF - Checksum.Fold(s);
    var h0, h2, n0, n2 := WordAt(oldA, 0), WordAt(oldA, 2), WordAt(newA, 0), WordAt(newA, 2);
    if oldA != newA {
      var s1 := s - h0 + n0;
      var c1 := Update16(c, h0, n0);
      Update16OnSums(s, h0, n0);
      assert c1 == 0xFFFF - Checksum.Fold(s1);
      Update16OnSums(s1, h2, n2);
      assert AddrUpdate(c, oldA, newA) == Update16(c1, h2, n2);
      assert s1 - h2 + n2 == s - Halves(oldA) + Halves(newA);
    } else {
      assert Halves(oldA) == Halves(newA);
    }
  }

  /** Incremental equivalence for the transport checksum (RFC 1624): if the
      stored checksum `c0` is the checksum of a region whose words are the
      two ports, the four address halves of the pseudo-header and other
      words summing to `rest > 0` (the pseudo-header's protocol word is
      never 0 and never rewritten), then the chain of updates gives exactly
      the checksum a full recomputation over the rewritten region gives. */
  lemma L4ChecksumIsFull(rest: nat, oldSrcPort: u16, oldDstPort: u16, oldSrc: Addr, oldDst: Addr,
                         ctx: PacketContext)
    requires rest > 0
    ensures var oldSum := rest + oldSrcPort + oldDstPort + Halves(oldSrc) + Halves(oldDst);
      var newSum := rest + ctx.srcPort + ctx.dstPort + Halves(ctx.ipHdr.src) + Halves(ctx.ipHdr.dst);
      L4Checksum(0xFFFF - Checksum.Fold(oldSum), oldSrcPort, oldDstPort, oldSrc, oldDst, ctx) ==
      0xFFFF - Checksum.Fold(newSum)
  {
    var a := Halves(oldSrc) + Halves(oldDst);
    var s0 := rest + oldSrcPort + oldDstPort + a;
    var s1 := rest + ctx.srcPort + oldDstPort + a;
    var s2 := rest + ctx.srcPort + ctx.dstPort + a;
    var s3 := rest + ctx.srcPort + ctx.dstPort + Halves(ctx.ipHdr.src) + Halves(oldDst);
    var s4 := rest + ctx.srcPort + ctx.dstPort + Halves(ctx.ipHdr.src) + Halves(ctx.ipHdr.dst);
    var c0 := 0xFFFF - Checksum.Fold(s0);
    var c1 := Update16(c0, oldSrcPort, ctx.srcPort);
    WordStep(c0, s0, s1, oldSrcPort, ctx.srcPort);
    var c2 := Update16(c1, oldDstPort, ctx.dstPort);
    WordStep(c1, s1, s2, oldDstPort, ctx.dstPort);
    var c3 := AddrUpdate(c2, oldSrc, ctx.ipHdr.src);
    AddrStep(c2, s2, s3, oldSrc, ctx.ipHdr.src);
    var c4 := AddrUpdate(c3, oldDst, ctx.ipHdr.dst);
    AddrStep(c3, s3, s4, oldDst, ctx.ipHdr.dst);
  }

  /** `Update16OnSums` with the sums named. */
  lemma WordStep(c: u16, s: nat, s': nat, m: u16, m': u16)
    requires c == 0xFFFF - Checksum.Fold(s)
    requires m <= s && s' == s - m + m' && s' > 0
    ensures Update16(c, m, m') == 0xFFFF - Checksum.Fold(s')
  {
    Update16OnSums(s, m, m');
  }

  /** `AddrUpdateOnSums` with the sums named. */
  lemma AddrStep(c: u16, s: nat, s': nat, oldA: Addr, newA: Addr)
    requires c == 0xFFFF - Checksum.Fold(s)
    requires Halves(oldA) <= s && s - Halves(oldA) > 0 && s' == s - Halves(oldA) + Halves(newA)
    ensures AddrUpdate(c, oldA, newA) == 0xFFFF - Checksum.Fold(s')
  {
    AddrUpdateOnSums(s, oldA, newA);
  }
}
