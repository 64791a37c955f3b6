/** One tracked flow of the NAT table and its expiry policy
    (`src/nat/entry.rs`). */
module Entry {
  import opened Types

  const NAT_TIMEOUT_TCP_MS: u32 := 45_000
  const NAT_TIMEOUT_UDP_MS: u32 := 30_000
  const NAT_TIMEOUT_ICMP_MS: u32 := 20_000

  /** The closed set of translated IP protocols, tagged with their IANA
      protocol numbers (`#[repr(u8)]`). */
  datatype Protocol = Tcp | Udp | Icmp
  {
    /** The `repr(u8)` value of the variant. */
    function Number(): byte
    {
      match this
      case Tcp => 6
      case Udp => 17
      case Icmp => 1
    }

    /** The idle timeout after which a flow of this protocol expires. */
    function Timeout(): u32
    {
      match this
      case Tcp => NAT_TIMEOUT_TCP_MS
      case Udp => NAT_TIMEOUT_UDP_MS
      case Icmp => NAT_TIMEOUT_ICMP_MS
    }
  }

  /** `Protocol::from_u8`: recognises exactly the numbers 6, 17 and 1, and
      the variant it returns carries the number it was given. */
  function FromU8(val: byte): (r: Option<Protocol>)
    ensures r.Some? <==> val == 6 || val == 17 || val == 1
    ensures r.Some? ==> r.value.Number() == val
  {
    match val
    case 6 => Some(Tcp)
    case 17 => Some(Udp)
    case 1 => Some(Icmp)
    case _ => None
  }

  /** Decoding a protocol's own number gives that protocol back. */
  lemma FromU8Number(p: Protocol)
    ensures FromU8(p.Number()) == Some(p)
  {
  }

  /** The identity of a flow as a lookup sees it: the protocol, the local
      endpoint and the peer endpoint. For ICMP the peer "port" carries no
      information and is normalised to 0. */
  datatype FlowKey = FlowKey(proto: Protocol, localIp: Addr, localPort: u16, peerIp: Addr, peerPort: u16)

  function PeerPortKey(proto: Protocol, port: u16): u16
  {
    if proto == Icmp then 0 else port
  }

  /** The key of an outbound packet `src:sport -> dst:dport`. */
  function OutboundKey(srcIp: Addr, srcPort: u16, dstIp: Addr, dstPort: u16, proto: Protocol): FlowKey
  {
    FlowKey(proto, srcIp, srcPort, dstIp, PeerPortKey(proto, dstPort))
  }

  /** The identity of a reply as an inbound lookup sees it: the external
      port it was sent to and the peer it came from (the peer port again
      normalised to 0 for ICMP). */
  datatype ReplyKey = ReplyKey(proto: Protocol, externalPort: u16, peerIp: Addr, peerPort: u16)

  /** The key of an inbound packet `src:sport -> (external address):dport`. */
  function InboundKey(srcIp: Addr, srcPort: u16, dstPort: u16, proto: Protocol): ReplyKey
  {
    ReplyKey(proto, dstPort, srcIp, PeerPortKey(proto, srcPort))
  }

  /** A connection entry (`NatEntry`, a `Copy` struct, hence a value). */
  datatype NatEntry = NatEntry(
    internalIp: Addr,
    internalPort: u16,
    externalIp: Addr,
    externalPort: u16,
    remoteIp: Addr,
    remotePort: u16,
    protocol: Protocol,
    lastActivity: u32,
    inUse: bool,
    internalIface: NetIf,
    externalIface: NetIf)
  {
    /** The key under which outbound packets of this flow are looked up. */
    function OutboundKeyOf(): FlowKey
    {
      OutboundKey(internalIp, internalPort, remoteIp, remotePort, protocol)
    }

    /** The key under which replies to this flow are looked up. */
    function InboundKeyOf(): ReplyKey
    {
      InboundKey(remoteIp, remotePort, externalPort, protocol)
    }

    /** `matches_outbound`: a live entry matches exactly the packets whose
        outbound key is its own (for ICMP, whatever the destination port). */
    predicate MatchesOutbound(srcIp: Addr, srcPort: u16, dstIp: Addr, dstPort: u16, proto: Protocol)
      ensures MatchesOutbound(srcIp, srcPort, dstIp, dstPort, proto) <==>
        inUse && OutboundKeyOf() == OutboundKey(srcIp, srcPort, dstIp, dstPort, proto)
    {
      if !inUse || protocol != proto then false
      else if internalIp != srcIp || remoteIp != dstIp then false
      else
        match proto
        case Icmp => internalPort == srcPort
        case Tcp | Udp => internalPort == srcPort && remotePort == dstPort
    }

    /** `matches_inbound`: a live entry matches exactly the replies whose
        inbound key is its own: from the remote endpoint (any source port for
        ICMP) to its external port. */
    predicate MatchesInbound(srcIp: Addr, srcPort: u16, dstPort: u16, proto: Protocol)
      ensures MatchesInbound(srcIp, srcPort, dstPort, proto) <==>
        inUse && InboundKeyOf() == InboundKey(srcIp, srcPort, dstPort, proto)
    {
      if !inUse || protocol != proto then false
      else if remoteIp != srcIp then false
      else if externalPort != dstPort then false
      else
        match proto
        case Icmp => true
        case Tcp | Udp => remotePort == srcPort
    }

    /** `touch`: records activity at `now` and changes nothing else. */
    function Touch(now: u32): (e: NatEntry)
      ensures e.lastActivity == now
      ensures e.(lastActivity := lastActivity) == this
    {
      this.(lastActivity := now)
    }

    /** `is_expired`: a free slot is always expired; a live entry expires once
        more than its protocol's timeout has passed since its last activity,
        so it is still live at exactly `lastActivity + timeout` and never
        expired at or before `lastActivity`. */
    predicate IsExpired(now: u32)
      ensures IsExpired(now) <==> !inUse || now > lastActivity + protocol.Timeout()
    {
      if !inUse then true
      else SaturatingSub(now, lastActivity) > protocol.Timeout()
    }
  }

  /** `u32::saturating_sub`. */
  function SaturatingSub(a: u32, b: u32): u32
  {
    if a >= b then a - b else 0
  }

  /** `NatEntry::new`: a free slot with every field zeroed. */
  function NewEntry(): NatEntry
  {
    NatEntry([0, 0, 0, 0], 0, [0, 0, 0, 0], 0, [0, 0, 0, 0], 0, Tcp, 0, false, NullIf, NullIf)
  }

  /** A fresh entry is a free slot: it matches no packet in either direction
      and is always expired. */
  lemma NewEntryIsFree(srcIp: Addr, srcPort: u16, dstIp: Addr, dstPort: u16, proto: Protocol, now: u32)
    ensures !NewEntry().inUse
    ensures !NewEntry().MatchesOutbound(srcIp, srcPort, dstIp, dstPort, proto)
    ensures !NewEntry().MatchesInbound(srcIp, srcPort, dstPort, proto)
    ensures NewEntry().IsExpired(now)
  {
  }

  /** The expiry boundary is strict: live at `t + timeout`, expired one
      millisecond later. */
  lemma ExpiryBoundary(e: NatEntry)
    requires e.inUse
    requires e.lastActivity + e.protocol.Timeout() + 1 < 0x1_0000_0000
    ensures !e.IsExpired(e.lastActivity + e.protocol.Timeout())
    ensures e.IsExpired(e.lastActivity + e.protocol.Timeout() + 1)
  {
  }

  /** A clock at or behind the last activity (for instance after the
      32-bit uptime wraps) never expires a live entry: the saturating
      subtraction yields 0. */
  lemma ClockBehindNeverExpires(e: NatEntry, now: u32)
    requires e.inUse && now <= e.lastActivity
    ensures !e.IsExpired(now)
  {
  }

  /** Touching never changes which packets an entry matches. */
  lemma TouchKeepsMatching(e: NatEntry, now: u32)
    ensures e.Touch(now).OutboundKeyOf() == e.OutboundKeyOf()
    ensures e.Touch(now).InboundKeyOf() == e.InboundKeyOf()
    ensures e.Touch(now).inUse == e.inUse
  {
  }
}
