/** The connection-tracking table of the NAT engine (`src/nat/table.rs`):
    subnet classification, the rotating port cursor, the expiry sweep, and
    the outbound and inbound translation of NAPT (RFC 3022). The table's
    behaviour is given first as functions on its abstract state
    (`NatState`), then as the class `NatTable` whose methods update their
    fields step by step as the source does and are proved to follow those
    functions. */
module Table {
  import opened Types
  import opened Entry
  import opened Packet

  const PORT_RANGE_START: u16 := 50000
  const PORT_RANGE_END: u16 := 65535

  /** The LAN address the broadcast gate is derived from (192.168.4.1),
      fixed in the source whatever network is configured. */
  const LAN_BASE: Addr := [192, 168, 4, 1]

  /** `NatConfig`: which sources are translated, the shared external
      address, and the two interfaces. */
  datatype NatConfig = NatConfig(
    internalNetwork: Addr,
    internalNetmask: Addr,
    externalIp: Addr,
    internalIface: NetIf,
    externalIface: NetIf)

  /** `NatConfig::default()`: every address zero, both interfaces null. */
  function DefaultConfig(): NatConfig
  {
    NatConfig([0, 0, 0, 0], [0, 0, 0, 0], [0, 0, 0, 0], NullIf, NullIf)
  }

  /** Why a translation returned `Err(())`; the source does not tell the
      reasons apart, and neither do the hooks. */
  datatype NatError = UnsupportedProtocol | NoMatchingEntry | TableFull

  /** `Result<(), ()>` of the translate calls. */
  datatype Outcome = Ok | Err(error: NatError)

  /** Everything a translation reads and writes of the table: the entries
      (the `heapless::Vec`), the port cursor, the configuration, and the
      process-wide high-water mark `PEAK_NAT_USAGE`. */
  datatype NatState = NatState(entries: seq<NatEntry>, nextPort: u16, config: NatConfig, peak: nat)

  function Max(a: nat, b: nat): nat
  {
    if a >= b then a else b
  }

  // ---------------------------------------------------------------------
  // Classification
  // ---------------------------------------------------------------------

  /** `is_internal_ip`: the address agrees with the configured network on
      every bit of the netmask, octet by octet. */
  predicate InNetwork(cfg: NatConfig, ip: Addr)
  {
    forall i :: 0 <= i < 4 ==>
      And8(ip[i], cfg.internalNetmask[i]) == And8(cfg.internalNetwork[i], cfg.internalNetmask[i])
  }

  /** The directed broadcast of `base` under `mask`: the host bits all set. */
  function BroadcastOf(base: Addr, mask: Addr): Addr
  {
    seq(4, i requires 0 <= i < 4 => BroadcastOctet(base[i], mask[i]))
  }

  /** The broadcast the outbound gate compares against: derived from the
      fixed 192.168.4.1, not from the configured network. */
  function LanBroadcast(cfg: NatConfig): Addr
  {
    BroadcastOf(LAN_BASE, cfg.internalNetmask)
  }

  /** A destination multicast address: first octet in 224..239. */
  predicate IsMulticast(ip: Addr)
  {
    224 <= ip[0] <= 239
  }

  /** The policy gates of `translate_outbound`, in order: the packet passes
      through untranslated when its source is not internal, its destination
      is internal, multicast, the limited broadcast, or the broadcast
      derived from 192.168.4.1. */
  predicate OutboundSkipped(cfg: NatConfig, ctx: PacketContext)
  {
    || !InNetwork(cfg, ctx.ipHdr.src)
    || InNetwork(cfg, ctx.ipHdr.dst)
    || IsMulticast(ctx.ipHdr.dst)
    || IsLimitedBroadcast(ctx.ipHdr.dst)
    || IsLanBroadcast(cfg, ctx.ipHdr.dst)
  }

  /** The limited broadcast 255.255.255.255, compared octet by octet. */
  predicate IsLimitedBroadcast(ip: Addr)
  {
    forall i :: 0 <= i < 4 ==> ip[i] == 255
  }

  /** `ip` is the broadcast of 192.168.4.1 under the netmask, compared
      octet by octet. */
  predicate IsLanBroadcast(cfg: NatConfig, ip: Addr)
  {
    forall i :: 0 <= i < 4 ==> ip[i] == BroadcastOctet(LAN_BASE[i], cfg.internalNetmask[i])
  }

  /** The octet-wise tests are the address comparisons the gate makes. */
  lemma BroadcastTests(cfg: NatConfig, ip: Addr)
    ensures IsLimitedBroadcast(ip) <==> ip == [255, 255, 255, 255]
    ensures IsLanBroadcast(cfg, ip) <==> ip == LanBroadcast(cfg)
  {
  }

  /** An example configuration, 10.0.0.0/24 behind 203.0.113.1. */
  function ExampleConfig(): NatConfig
  {
    NatConfig([10, 0, 0, 0], [255, 255, 255, 0], [203, 0, 113, 1], Interface(1), Interface(2))
  }

  /** The broadcast gate does not follow the configured network: under
      10.0.0.0/24 it compares against 192.168.4.255, so a packet from an
      internal host to that external address is never translated, while the
      network's own broadcast 10.0.0.255 is passed by the "destination is
      internal" gate before the broadcast gate is reached. */
  lemma HardCodedBroadcastGate(ctx: PacketContext)
    requires ctx.ipHdr.src == [10, 0, 0, 5] && ctx.ipHdr.dst == [192, 168, 4, 255]
    ensures LanBroadcast(ExampleConfig()) == [192, 168, 4, 255]
    ensures InNetwork(ExampleConfig(), ctx.ipHdr.src) && !InNetwork(ExampleConfig(), ctx.ipHdr.dst)
    ensures !IsMulticast(ctx.ipHdr.dst) && OutboundSkipped(ExampleConfig(), ctx)
    ensures InNetwork(ExampleConfig(), [10, 0, 0, 255])
  {
    var cfg := ExampleConfig();
    OctetMasks(10);
    OctetMasks(192);
    OctetMasks(168);
    OctetMasks(4);
    OctetMasks(1);
    assert LanBroadcast(cfg)[..4] == [192, 168, 4, 255];
    assert And8(ctx.ipHdr.dst[0], cfg.internalNetmask[0]) != And8(cfg.internalNetwork[0], cfg.internalNetmask[0]);
  }

  // ---------------------------------------------------------------------
  // Port cursor
  // ---------------------------------------------------------------------

  /** The cursor after an allocation, as intended: one up, and from the end
      of the range back to its start. */
  function NextPort(p: u16): u16
  {
    if p >= PORT_RANGE_END then PORT_RANGE_START else p + 1
  }

  /** The cursor after an allocation, as `allocate_port` is written: a u16
      `+= 1` (which wraps in a release build; a debug build panics), then a
      `> 65535` test that no u16 can pass. */
  function NextPortAsWritten(p: u16): u16
  {
    var n := (p + 1) % 0x1_0000;
    if n > PORT_RANGE_END then PORT_RANGE_START else n
  }

  /** As written, the wrap test never fires, and the cursor leaves the
      dynamic range after 65535: the next allocations hand out 0, 1, 2, ... */
  lemma PortCursorLeavesRange(p: u16)
    ensures NextPortAsWritten(p) == (p + 1) % 0x1_0000
    ensures NextPortAsWritten(PORT_RANGE_END) == 0
  {
  }

  /** `k` allocations from cursor `p`. */
  function AdvancePort(p: u16, k: nat): u16
    decreases k
  {
    if k == 0 then p else AdvancePort(NextPort(p), k - 1)
  }

  /** The intended cursor stays in [50000, 65535] and cycles through it:
      from the start of the range, the k-th allocation hands out 50000 + k,
      and after all 15536 ports the cursor is back at 50000. */
  lemma {:induction false} PortCursorCycles(k: nat)
    requires k <= PORT_RANGE_END - PORT_RANGE_START + 1
    ensures AdvancePort(PORT_RANGE_START, k) ==
      if k == PORT_RANGE_END - PORT_RANGE_START + 1 then PORT_RANGE_START else PORT_RANGE_START + k
  {
    AdvanceFrom(PORT_RANGE_START, k);
  }

  lemma {:induction false} AdvanceFrom(p: u16, k: nat)
    requires PORT_RANGE_START <= p && p + k <= PORT_RANGE_END + 1
    ensures AdvancePort(p, k) == if p + k == PORT_RANGE_END + 1 then PORT_RANGE_START else p + k
    decreases k
  {
    if k > 0 {
      if p == PORT_RANGE_END {
        assert k == 1;
      } else {
        AdvanceFrom(p + 1, k - 1);
      }
    }
  }

  /** The intended cursor never leaves the range. */
  lemma NextPortInRange(p: u16)
    requires PORT_RANGE_START <= p
    ensures PORT_RANGE_START <= NextPort(p) && NextPort(p) != p
  {
  }

  // ---------------------------------------------------------------------
  // Lookup and expiry sweep
  // ---------------------------------------------------------------------

  /** `iter().position(f)`: the first index whose entry satisfies `f`. */
  function FindFirst(s: seq<NatEntry>, f: NatEntry -> bool): (r: Option<nat>)
    ensures r.Some? ==> r.value < |s| && f(s[r.value]) && forall j :: 0 <= j < r.value ==> !f(s[j])
    ensures r.None? ==> forall j :: 0 <= j < |s| ==> !f(s[j])
  {
    if |s| == 0 then None
    else if f(s[0]) then Some(0)
    else
      match FindFirst(s[1..], f)
      case None => None
      case Some(k) => Some(k + 1)
  }

  /** The outbound lookup predicate of `find_outbound`. */
  function OutboundMatcher(ctx: PacketContext, p: Protocol): NatEntry -> bool
  {
    (e: NatEntry) => e.MatchesOutbound(ctx.ipHdr.src, ctx.srcPort, ctx.ipHdr.dst, ctx.dstPort, p)
  }

  /** The inbound lookup predicate of `find_inbound`. */
  function InboundMatcher(ctx: PacketContext, p: Protocol): NatEntry -> bool
  {
    (e: NatEntry) => e.MatchesInbound(ctx.ipHdr.src, ctx.srcPort, ctx.dstPort, p)
  }

  /** `retain(|e| !e.is_expired(now))`, front to back. */
  function Retain(s: seq<NatEntry>, now: u32): (r: seq<NatEntry>)
    ensures |r| <= |s|
  {
    if |s| == 0 then []
    else
      var last := s[|s| - 1];
      Retain(s[..|s| - 1], now) + (if last.IsExpired(now) then [] else [last])
  }

  /** The sweep removes exactly the expired entries: what it keeps is in the
      table and live, and every live entry of the table is kept. */
  lemma {:induction false} RetainKeepsLive(s: seq<NatEntry>, now: u32)
    ensures forall e :: e in Retain(s, now) <==> e in s && !e.IsExpired(now)
  {
    if |s| > 0 {
      RetainKeepsLive(s[..|s| - 1], now);
      assert s == s[..|s| - 1] + [s[|s| - 1]];
    }
  }

  /** The sweep keeps the survivors in their order: sweeping a table made of
      two parts is sweeping each part. */
  lemma {:induction false} RetainConcat(a: seq<NatEntry>, b: seq<NatEntry>, now: u32)
    ensures Retain(a + b, now) == Retain(a, now) + Retain(b, now)
    decreases |b|
  {
    if |b| > 0 {
      var b' := b[..|b| - 1];
      assert (a + b)[..|a + b| - 1] == a + b';
      RetainConcat(a, b', now);
    } else {
      assert a + b == a;
    }
  }

  /** When nothing has expired, the sweep changes nothing. */
  lemma {:induction false} RetainAllLive(s: seq<NatEntry>, now: u32)
    requires forall i :: 0 <= i < |s| ==> !s[i].IsExpired(now)
    ensures Retain(s, now) == s
  {
    if |s| > 0 {
      RetainAllLive(s[..|s| - 1], now);
    }
  }

  // ---------------------------------------------------------------------
  // Translation, on the abstract state
  // ---------------------------------------------------------------------

  /** The packet as rewritten by an outbound translation: the source becomes
      the external address and port, the target interface the external one
      when it is set, and the context is marked dirty. */
  function MapSource(ctx: PacketContext, ip: Addr, port: u16, iface: NetIf): PacketContext
  {
    ctx.(ipHdr := ctx.ipHdr.(src := ip), srcPort := port,
         iface := if iface != NullIf then iface else ctx.iface, needsUpdate := true)
  }

  /** The packet as rewritten by an inbound translation. */
  function MapDestination(ctx: PacketContext, ip: Addr, port: u16, iface: NetIf): PacketContext
  {
    ctx.(ipHdr := ctx.ipHdr.(dst := ip), dstPort := port,
         iface := if iface != NullIf then iface else ctx.iface, needsUpdate := true)
  }

  /** The entry created for a new outbound flow. */
  function NewFlowEntry(ctx: PacketContext, p: Protocol, port: u16, cfg: NatConfig, now: u32): NatEntry
  {
    NatEntry(ctx.ipHdr.src, ctx.srcPort, cfg.externalIp, port, ctx.ipHdr.dst, ctx.dstPort,
             p, now, true, ctx.origIface, cfg.externalIface)
  }

  /** The external port of a new flow: 0 for ICMP, else the cursor. */
  function FlowPort(s: NatState, p: Protocol): u16
  {
    if p == Icmp then 0 else s.nextPort
  }

  /** The cursor after a new flow: unchanged for ICMP, else advanced. */
  function CursorAfter(s: NatState, p: Protocol): u16
  {
    if p == Icmp then s.nextPort else NextPort(s.nextPort)
  }

  /** An outbound packet matched by no entry: sweep, allocate, and push the
      new entry, failing when the table is full (after the sweep has happened and
      the cursor has moved). */
  function OutboundMiss(s: NatState, cap: nat, ctx: PacketContext, p: Protocol, now: u32)
    : (NatState, Outcome, PacketContext)
  {
    var kept := Retain(s.entries, now);
    var port := FlowPort(s, p);
    if |kept| >= cap then
      (s.(entries := kept, nextPort := CursorAfter(s, p)), Err(TableFull), ctx)
    else
      var entries := kept + [NewFlowEntry(ctx, p, port, s.config, now)];
      (NatState(entries, CursorAfter(s, p), s.config, Max(s.peak, |entries|)), Ok,
       MapSource(ctx, s.config.externalIp, port, s.config.externalIface))
  }

  /** `translate_outbound` on the abstract state: the new state, the result,
      and the context as it leaves the call. */
  function Outbound(s: NatState, cap: nat, ctx: PacketContext, now: u32): (NatState, Outcome, PacketContext)
  {
    if OutboundSkipped(s.config, ctx) then (s, Ok, ctx)
    else
      match FromU8(ctx.ipHdr.proto)
      case None => (s, Err(UnsupportedProtocol), ctx)
      case Some(p) =>
        match FindFirst(s.entries, OutboundMatcher(ctx, p))
        case Some(i) =>
          var e := s.entries[i];
          (s.(entries := s.entries[i := e.Touch(now)]), Ok,
           MapSource(ctx, e.externalIp, e.externalPort, e.externalIface))
        case None => OutboundMiss(s, cap, ctx, p, now)
  }

  /** `translate_inbound` on the abstract state. */
  function Inbound(s: NatState, ctx: PacketContext, now: u32): (NatState, Outcome, PacketContext)
  {
    if ctx.ipHdr.dst != s.config.externalIp then (s, Ok, ctx)
    else
      match FromU8(ctx.ipHdr.proto)
      case None => (s, Err(UnsupportedProtocol), ctx)
      case Some(p) =>
        match FindFirst(s.entries, InboundMatcher(ctx, p))
        case None => (s, Err(NoMatchingEntry), ctx)
        case Some(i) =>
          var e := s.entries[i];
          (s.(entries := s.entries[i := e.Touch(now)]), Ok,
           MapDestination(ctx, e.internalIp, e.internalPort, e.internalIface))
  }

  /** `set_config` on the abstract state: the whole configuration replaced,
      the high-water mark raised to the current size. */
  function SetConfigState(s: NatState, cfg: NatConfig): NatState
  {
    s.(config := cfg, peak := Max(s.peak, |s.entries|))
  }

  // ---------------------------------------------------------------------
  // The table invariant and what translations preserve
  // ---------------------------------------------------------------------

  /** A stored entry: live, with a protocol-appropriate external port. */
  predicate EntryValid(e: NatEntry)
  {
    e.inUse && (if e.protocol == Icmp then e.externalPort == 0 else PORT_RANGE_START <= e.externalPort)
  }

  /** The table invariant: never more entries than the capacity, every
      stored entry valid, the cursor in the dynamic range, and the
      high-water mark at least the current size. */
  predicate StateValid(s: NatState, cap: nat)
  {
    && |s.entries| <= cap
    && (forall i :: 0 <= i < |s.entries| ==> EntryValid(s.entries[i]))
    && PORT_RANGE_START <= s.nextPort
    && |s.entries| <= s.peak
  }

  /** Sweeping keeps only stored entries, hence only valid ones. */
  lemma RetainValid(s: seq<NatEntry>, now: u32)
    requires forall i :: 0 <= i < |s| ==> EntryValid(s[i])
    ensures forall i :: 0 <= i < |Retain(s, now)| ==> EntryValid(Retain(s, now)[i])
  {
    RetainKeepsLive(s, now);
    forall i | 0 <= i < |Retain(s, now)| ensures EntryValid(Retain(s, now)[i]) {
      assert Retain(s, now)[i] in s;
    }
  }

  /** An outbound translation keeps the table invariant, never lowers the
      high-water mark, and never changes the configuration. */
  lemma OutboundPreservesValid(s: NatState, cap: nat, ctx: PacketContext, now: u32)
    requires StateValid(s, cap)
    ensures var s' := Outbound(s, cap, ctx, now).0;
      StateValid(s', cap) && s'.peak >= s.peak && s'.config == s.config
  {
    if !OutboundSkipped(s.config, ctx) && FromU8(ctx.ipHdr.proto).Some? {
      var p := FromU8(ctx.ipHdr.proto).value;
      if FindFirst(s.entries, OutboundMatcher(ctx, p)).None? {
        MissPreservesValid(s, cap, ctx, p, now);
      }
    }
  }

  /** The miss path keeps the invariant: the sweep keeps only valid
      entries, and a new entry is pushed only below the capacity. */
  lemma MissPreservesValid(s: NatState, cap: nat, ctx: PacketContext, p: Protocol, now: u32)
    requires StateValid(s, cap)
    ensures var s' := OutboundMiss(s, cap, ctx, p, now).0;
      StateValid(s', cap) && s'.peak >= s.peak && s'.config == s.config
  {
    RetainValid(s.entries, now);
  }

  /** An inbound translation keeps the table invariant and changes nothing
      but one entry's timestamp. */
  lemma InboundPreservesValid(s: NatState, cap: nat, ctx: PacketContext, now: u32)
    requires StateValid(s, cap)
    ensures var s' := Inbound(s, ctx, now).0;
      && StateValid(s', cap)
      && s'.nextPort == s.nextPort && s'.config == s.config && s'.peak == s.peak
      && |s'.entries| == |s.entries|
      && forall i :: 0 <= i < |s.entries| ==> s'.entries[i].(lastActivity := s.entries[i].lastActivity) == s.entries[i]
  {
  }

  /** The configuration call keeps the invariant and raises the mark only
      to the current size. */
  lemma SetConfigPreservesValid(s: NatState, cap: nat, cfg: NatConfig)
    requires StateValid(s, cap)
    ensures StateValid(SetConfigState(s, cfg), cap)
    ensures SetConfigState(s, cfg).peak == s.peak
  {
  }

  // ---------------------------------------------------------------------
  // Properties of outbound and inbound translation
  // ---------------------------------------------------------------------

  /** The policy gates: a packet they skip is returned as it came, with the
      table untouched and no entry created; a packet they do not skip is
      from an internal source to an external, non-multicast, non-broadcast
      destination. */
  lemma GatesPassThrough(s: NatState, cap: nat, ctx: PacketContext, now: u32)
    ensures OutboundSkipped(s.config, ctx) ==> Outbound(s, cap, ctx, now) == (s, Ok, ctx)
    ensures Outbound(s, cap, ctx, now).0 != s || Outbound(s, cap, ctx, now).2 != ctx ==>
      && InNetwork(s.config, ctx.ipHdr.src) && !InNetwork(s.config, ctx.ipHdr.dst)
      && !IsMulticast(ctx.ipHdr.dst) && ctx.ipHdr.dst != [255, 255, 255, 255]
  {
  }

  /** Past the gates, an unknown protocol number is refused before the
      table changes. */
  lemma UnknownProtocolRefused(s: NatState, cap: nat, ctx: PacketContext, now: u32)
    requires !OutboundSkipped(s.config, ctx) && FromU8(ctx.ipHdr.proto).None?
    ensures Outbound(s, cap, ctx, now) == (s, Err(UnsupportedProtocol), ctx)
  {
  }

  /** An outbound translation rewrites the packet's source and nothing
      else in the header: version, length, protocol and the rest stay, and
      the context stays bound to the interface it was parsed on. */
  lemma OutboundKeepsHeaderShape(s: NatState, cap: nat, ctx: PacketContext, now: u32)
    ensures var c := Outbound(s, cap, ctx, now).2;
      c.ipHdr.(src := ctx.ipHdr.src) == ctx.ipHdr && c.dstPort == ctx.dstPort && c.origIface == ctx.origIface
  {
    if !OutboundSkipped(s.config, ctx) && FromU8(ctx.ipHdr.proto).Some? {
      var p := FromU8(ctx.ipHdr.proto).value;
      match FindFirst(s.entries, OutboundMatcher(ctx, p))
      case Some(i) =>
        var e := s.entries[i];
        assert Outbound(s, cap, ctx, now).2 == MapSource(ctx, e.externalIp, e.externalPort, e.externalIface);
      case None =>
        assert Outbound(s, cap, ctx, now) == OutboundMiss(s, cap, ctx, p, now);
    }
  }

  /** An inbound translation rewrites the packet's destination and nothing
      else in the header. */
  lemma InboundKeepsHeaderShape(s: NatState, ctx: PacketContext, now: u32)
    ensures var c := Inbound(s, ctx, now).2;
      c.ipHdr.(dst := ctx.ipHdr.dst) == ctx.ipHdr && c.srcPort == ctx.srcPort && c.origIface == ctx.origIface
  {
    if ctx.ipHdr.dst == s.config.externalIp && FromU8(ctx.ipHdr.proto).Some? {
      var p := FromU8(ctx.ipHdr.proto).value;
      match FindFirst(s.entries, InboundMatcher(ctx, p))
      case Some(i) =>
        var e := s.entries[i];
        assert Inbound(s, ctx, now).2 == MapDestination(ctx, e.internalIp, e.internalPort, e.internalIface);
      case None =>
    }
  }

  /** An outbound hit touches the first matching entry and maps the source
      to its external address and port; no entry is added and the cursor
      does not move. */
  lemma OutboundHit(s: NatState, cap: nat, ctx: PacketContext, now: u32, p: Protocol, i: nat)
    requires !OutboundSkipped(s.config, ctx) && FromU8(ctx.ipHdr.proto) == Some(p)
    requires FindFirst(s.entries, OutboundMatcher(ctx, p)) == Some(i)
    ensures var (s', r, c) := Outbound(s, cap, ctx, now);
      && r == Ok && c.needsUpdate
      && c.ipHdr.src == s.entries[i].externalIp && c.srcPort == s.entries[i].externalPort
      && |s'.entries| == |s.entries| && s'.nextPort == s.nextPort && s'.peak == s.peak
      && s'.entries[i] == s.entries[i].Touch(now)
      && forall j :: 0 <= j < |s.entries| && j != i ==> s'.entries[j] == s.entries[j]
  {
  }

  /** Outbound idempotence: once a flow has been translated, translating
      the same 5-tuple again (later, with the same configuration) hits the
      same entry, adds none, allocates no port, and yields the same
      rewritten packet. */
  lemma OutboundIdempotent(s: NatState, cap: nat, ctx: PacketContext, now: u32, later: u32)
    requires !ctx.needsUpdate
    requires Outbound(s, cap, ctx, now).1 == Ok && Outbound(s, cap, ctx, now).2.needsUpdate
    ensures var (s1, _, c1) := Outbound(s, cap, ctx, now);
      var (s2, r2, c2) := Outbound(s1, cap, ctx, later);
      && r2 == Ok && c2 == c1
      && |s2.entries| == |s1.entries| && s2.nextPort == s1.nextPort && s2.peak == s1.peak
  {
    var p := FromU8(ctx.ipHdr.proto).value;
    var f := OutboundMatcher(ctx, p);
    var (s1, _, c1) := Outbound(s, cap, ctx, now);
    match FindFirst(s.entries, f)
    case Some(i) =>
      var e := s.entries[i];
      assert s1.entries == s.entries[i := e.Touch(now)];
      assert c1 == MapSource(ctx, e.externalIp, e.externalPort, e.externalIface);
      TouchKeepsMatching(e, now);
      forall j | 0 <= j < i ensures !f(s1.entries[j]) {
        assert s1.entries[j] == s.entries[j];
      }
      FirstIs(s1.entries, f, i);
      OutboundHit(s1, cap, ctx, later, p, i);
    case None =>
      assert (s1, Ok, c1) == OutboundMiss(s, cap, ctx, p, now);
      var kept := Retain(s.entries, now);
      var e := NewFlowEntry(ctx, p, FlowPort(s, p), s.config, now);
      assert s1.entries == kept + [e];
      assert c1 == MapSource(ctx, e.externalIp, e.externalPort, e.externalIface);
      RetainKeepsLive(s.entries, now);
      forall j | 0 <= j < |kept| ensures !f(s1.entries[j]) {
        assert s1.entries[j] == kept[j] && kept[j] in s.entries;
      }
      assert f(s1.entries[|kept|]);
      FirstIs(s1.entries, f, |kept|);
      OutboundHit(s1, cap, ctx, later, p, |kept|);
  }

  /** `FindFirst` finds index `i` when the entry there matches and none
      before it does. */
  lemma FirstIs(s: seq<NatEntry>, f: NatEntry -> bool, i: nat)
    requires i < |s| && f(s[i]) && forall j :: 0 <= j < i ==> !f(s[j])
    ensures FindFirst(s, f) == Some(i)
  {
  }

  /** Symmetry of the mapping: a TCP or UDP outbound packet from `src:sport`
      to `dst:dport` that creates a new entry is mapped to `ext:port`; a
      reply from `dst:dport` to `ext:port` is then mapped back to
      `src:sport`, provided no entry that was already in the table also
      matches the reply. */
  lemma OutboundInboundSymmetry(s: NatState, cap: nat, ctx: PacketContext, now: u32,
                                reply: PacketContext, later: u32)
    requires FromU8(ctx.ipHdr.proto) == Some(Tcp) || FromU8(ctx.ipHdr.proto) == Some(Udp)
    requires !OutboundSkipped(s.config, ctx)
    requires FindFirst(s.entries, OutboundMatcher(ctx, FromU8(ctx.ipHdr.proto).value)).None?
    requires Outbound(s, cap, ctx, now).1 == Ok
    requires var c1 := Outbound(s, cap, ctx, now).2;
      && reply.ipHdr.proto == ctx.ipHdr.proto
      && reply.ipHdr.src == ctx.ipHdr.dst && reply.srcPort == ctx.dstPort
      && reply.ipHdr.dst == c1.ipHdr.src && reply.dstPort == c1.srcPort
    requires FindFirst(s.entries, InboundMatcher(reply, FromU8(ctx.ipHdr.proto).value)).None?
    ensures var c1 := Outbound(s, cap, ctx, now).2;
      var (_, r2, c2) := Inbound(Outbound(s, cap, ctx, now).0, reply, later);
      && c1.ipHdr.src == s.config.externalIp
      && r2 == Ok && c2.needsUpdate
      && c2.ipHdr.dst == ctx.ipHdr.src && c2.dstPort == ctx.srcPort
  {
    var p := FromU8(ctx.ipHdr.proto).value;
    var f := InboundMatcher(reply, p);
    var s1 := Outbound(s, cap, ctx, now).0;
    var kept := Retain(s.entries, now);
    RetainKeepsLive(s.entries, now);
    forall j | 0 <= j < |kept| ensures !f(s1.entries[j]) {
      assert s1.entries[j] == kept[j] && kept[j] in s.entries;
    }
    assert f(s1.entries[|kept|]);
    FirstIs(s1.entries, f, |kept|);
  }

  /** ICMP replies are matched on the remote address alone: entries for ICMP
      carry external port 0 and a parsed ICMP packet carries destination
      port 0, so the echo identifier plays no part in the inbound lookup. */
  lemma IcmpInboundIgnoresIdentifier(e: NatEntry, src: Addr, ident: u16)
    requires EntryValid(e) && e.protocol == Icmp
    ensures e.MatchesInbound(src, ident, 0, Icmp) <==> e.remoteIp == src
  {
  }

  /** Capacity: when the swept table is full, a new flow is refused and the
      packet left as it was; the sweep has nevertheless happened and, for
      TCP and UDP, the cursor has moved. */
  lemma TableFullRefuses(s: NatState, cap: nat, ctx: PacketContext, now: u32, p: Protocol)
    requires StateValid(s, cap)
    requires !OutboundSkipped(s.config, ctx) && FromU8(ctx.ipHdr.proto) == Some(p)
    requires FindFirst(s.entries, OutboundMatcher(ctx, p)).None?
    ensures var (s', r, c) := Outbound(s, cap, ctx, now);
      && (r == Err(TableFull) <==> |Retain(s.entries, now)| == cap)
      && (r == Err(TableFull) ==>
            c == ctx && s'.entries == Retain(s.entries, now) && s'.nextPort == CursorAfter(s, p))
      && (r == Ok ==> |s'.entries| == |Retain(s.entries, now)| + 1 <= cap)
  {
  }

  /** Expiry: after an outbound miss, no entry that was expired at `now`
      remains in the table. */
  lemma MissSweepsExpired(s: NatState, cap: nat, ctx: PacketContext, now: u32, p: Protocol)
    requires !OutboundSkipped(s.config, ctx) && FromU8(ctx.ipHdr.proto) == Some(p)
    requires FindFirst(s.entries, OutboundMatcher(ctx, p)).None?
    ensures var s' := Outbound(s, cap, ctx, now).0;
      forall e :: e in s'.entries ==> !e.IsExpired(now)
  {
    RetainKeepsLive(s.entries, now);
  }

  /** Inbound: traffic not addressed to the external address passes
      untouched; an unsolicited packet is refused with the table unchanged;
      a match maps the destination to the entry's internal endpoint. */
  lemma InboundCases(s: NatState, ctx: PacketContext, now: u32)
    ensures ctx.ipHdr.dst != s.config.externalIp ==> Inbound(s, ctx, now) == (s, Ok, ctx)
    ensures Inbound(s, ctx, now).1.Err? ==> Inbound(s, ctx, now).0 == s && Inbound(s, ctx, now).2 == ctx
    ensures var (s', r, c) := Inbound(s, ctx, now);
      !ctx.needsUpdate && r == Ok && c.needsUpdate ==>
        exists i :: 0 <= i < |s.entries| && s.entries[i].inUse
          && c.ipHdr.dst == s.entries[i].internalIp && c.dstPort == s.entries[i].internalPort
          && s'.entries[i] == s.entries[i].Touch(now)
  {
    if ctx.ipHdr.dst == s.config.externalIp && FromU8(ctx.ipHdr.proto).Some? {
      var p := FromU8(ctx.ipHdr.proto).value;
      match FindFirst(s.entries, InboundMatcher(ctx, p))
      case Some(i) =>
        var e := s.entries[i];
        assert e.MatchesInbound(ctx.ipHdr.src, ctx.srcPort, ctx.dstPort, p);
        assert Inbound(s, ctx, now) ==
          (s.(entries := s.entries[i := e.Touch(now)]), Ok, MapDestination(ctx, e.internalIp, e.internalPort, e.internalIface));
      case None =>
    }
  }

  // ---------------------------------------------------------------------
  // The table object
  // ---------------------------------------------------------------------

  /** `NatTable`: the entry vector, the port cursor and the configuration,
      plus the high-water mark and the vector's capacity. */
  class NatTable {
    var entries: seq<NatEntry>
    var nextPort: u16
    var config: NatConfig
    /** `PEAK_NAT_USAGE`: process-wide in the source, owned here. */
    var peak: nat
    /** `MAX_NAT_ENTRIES`, a build-time setting. */
    const capacity: nat

    function State(): NatState
      reads this
    {
      NatState(entries, nextPort, config, peak)
    }

    ghost predicate Valid()
      reads this
    {
      StateValid(State(), capacity)
    }

    /** `NatTable::new`: empty, the cursor at the start of the range, the
        default configuration. */
    constructor (capacity: nat)
      ensures Valid() && this.capacity == capacity
      ensures State() == NatState([], PORT_RANGE_START, DefaultConfig(), 0)
    {
      entries := [];
      nextPort := PORT_RANGE_START;
      config := DefaultConfig();
      peak := 0;
      this.capacity := capacity;
    }

    /** `update_peak_usage`: raises the mark to the current size and
        returns that size. */
    method UpdatePeakUsage() returns (current: nat)
      modifies this`peak
      ensures current == |entries| && peak == Max(old(peak), |entries|)
    {
      current := |entries|;
      if current > peak {
        peak := current;
      }
    }

    /** `is_internal_ip`, octet by octet. */
    method IsInternalIp(ip: Addr) returns (r: bool)
      ensures r == InNetwork(config, ip)
    {
      var i := 0;
      while i < 4
        invariant 0 <= i <= 4
        invariant forall j :: 0 <= j < i ==>
          And8(ip[j], config.internalNetmask[j]) == And8(config.internalNetwork[j], config.internalNetmask[j])
      {
        if And8(ip[i], config.internalNetmask[i]) != And8(config.internalNetwork[i], config.internalNetmask[i]) {
          return false;
        }
        i := i + 1;
      }
      return true;
    }

    /** `is_external_ip`: exact equality with the external address, octet
        by octet. */
    predicate IsExternalIp(ip: Addr)
      reads this
      ensures IsExternalIp(ip) <==> forall i :: 0 <= i < 4 ==> ip[i] == config.externalIp[i]
    {
      ip == config.externalIp
    }

    /** The broadcast loop of `translate_outbound`, over the fixed LAN base. */
    method LanBroadcastAddr() returns (broadcast: Addr)
      ensures broadcast == LanBroadcast(config)
    {
      broadcast := [0, 0, 0, 0];
      var i := 0;
      while i < 4
        invariant 0 <= i <= 4
        invariant forall j :: 0 <= j < i ==>
          broadcast[j] == BroadcastOctet(LAN_BASE[j], config.internalNetmask[j])
      {
        broadcast := broadcast[i := BroadcastOctet(LAN_BASE[i], config.internalNetmask[i])];
        i := i + 1;
      }
    }

    /** `allocate_port`: hands out the cursor and advances it (with the
        intended wrap from 65535 to 50000). */
    method AllocatePort() returns (port: u16)
      modifies this`nextPort
      ensures port == old(nextPort) && nextPort == NextPort(old(nextPort))
    {
      port := nextPort;
      if nextPort >= PORT_RANGE_END {
        nextPort := PORT_RANGE_START;
      } else {
        nextPort := nextPort + 1;
      }
    }

    /** `find_outbound`: the position of the first matching entry. */
    method FindOutbound(ctx: PacketContext, p: Protocol) returns (idx: Option<nat>)
      ensures idx == FindFirst(entries, OutboundMatcher(ctx, p))
    {
      idx := Position(entries, OutboundMatcher(ctx, p));
    }

    /** `find_inbound`: the position of the first matching entry. */
    method FindInbound(ctx: PacketContext, p: Protocol) returns (idx: Option<nat>)
      ensures idx == FindFirst(entries, InboundMatcher(ctx, p))
    {
      idx := Position(entries, InboundMatcher(ctx, p));
    }

    /** `cleanup`: `retain` the live entries. */
    method Cleanup(now: u32)
      modifies this`entries
      ensures entries == Retain(old(entries), now)
    {
      var kept: seq<NatEntry> := [];
      var i := 0;
      while i < |entries|
        invariant 0 <= i <= |entries|
        invariant kept == Retain(entries[..i], now)
      {
        assert entries[..i + 1][..i] == entries[..i];
        if !entries[i].IsExpired(now) {
          kept := kept + [entries[i]];
        }
        i := i + 1;
      }
      assert entries[..i] == entries;
      entries := kept;
    }

    /** The policy gates at the head of `translate_outbound`, in the
        source's order. */
    method SkipsOutbound(ctx: PacketContext) returns (skip: bool)
      ensures skip == OutboundSkipped(config, ctx)
    {
      var srcInternal := IsInternalIp(ctx.ipHdr.src);
      var dstInternal := IsInternalIp(ctx.ipHdr.dst);
      if !srcInternal || dstInternal {
        return true;
      }
      var dst := ctx.ipHdr.dst;
      if 224 <= dst[0] <= 239 || dst == [255, 255, 255, 255] {
        return true;
      }
      var broadcast := LanBroadcastAddr();
      BroadcastTests(config, dst);
      return dst == broadcast;
    }

    /** The miss path of `translate_outbound`: sweep, allocate (no port for
        ICMP), and push unless the table is full. */
    method AddFlow(ctx: PacketContext, p: Protocol, now: u32) returns (r: Outcome, ctx': PacketContext)
      modifies this`entries, this`nextPort, this`peak
      ensures (State(), r, ctx') == OutboundMiss(old(State()), capacity, ctx, p, now)
    {
      Cleanup(now);
      var externalPort: u16 := 0;
      if p != Icmp {
        externalPort := AllocatePort();
      }
      var entry := NewFlowEntry(ctx, p, externalPort, config, now);
      if |entries| >= capacity {
        return Err(TableFull), ctx;
      }
      entries := entries + [entry];
      ctx' := MapSource(ctx, config.externalIp, externalPort, config.externalIface);
      var _ := UpdatePeakUsage();
      return Ok, ctx';
    }

    /** `translate_outbound`: the gates, the lookup, the hit or the miss
        path. */
    method TranslateOutbound(ctx: PacketContext, now: u32) returns (r: Outcome, ctx': PacketContext)
      requires Valid()
      modifies this`entries, this`nextPort, this`peak
      ensures Valid()
      ensures (State(), r, ctx') == Outbound(old(State()), capacity, ctx, now)
    {
      OutboundPreservesValid(State(), capacity, ctx, now);
      var skip := SkipsOutbound(ctx);
      if skip {
        return Ok, ctx;
      }
      var proto := FromU8(ctx.ipHdr.proto);
      if proto.None? {
        return Err(UnsupportedProtocol), ctx;
      }
      var found := FindOutbound(ctx, proto.value);
      if found.None? {
        r, ctx' := AddFlow(ctx, proto.value, now);
        return;
      }
      var i := found.value;
      var e := entries[i].Touch(now);
      entries := entries[i := e];
      return Ok, MapSource(ctx, e.externalIp, e.externalPort, e.externalIface);
    }

    /** `translate_inbound`: only traffic to the external address, matched
        on the reply key, mapped to the entry's internal endpoint. */
    method TranslateInbound(ctx: PacketContext, now: u32) returns (r: Outcome, ctx': PacketContext)
      requires Valid()
      modifies this`entries
      ensures Valid()
      ensures (State(), r, ctx') == Inbound(old(State()), ctx, now)
    {
      ghost var s := State();
      InboundPreservesValid(s, capacity, ctx, now);
      ctx' := ctx;
      if !IsExternalIp(ctx.ipHdr.dst) {
        return Ok, ctx';
      }
      var proto := FromU8(ctx.ipHdr.proto);
      if proto.None? {
        return Err(UnsupportedProtocol), ctx';
      }
      var found := FindInbound(ctx, proto.value);
      if found.None? {
        return Err(NoMatchingEntry), ctx';
      }
      var i := found.value;
      var e := entries[i].Touch(now);
      entries := entries[i := e];
      ctx' := MapDestination(ctx', e.internalIp, e.internalPort, e.internalIface);
      return Ok, ctx';
    }

    /** `set_config`: replaces the whole configuration and raises the
        high-water mark to the current size. */
    method SetConfig(cfg: NatConfig)
      requires Valid()
      modifies this`config, this`peak
      ensures Valid()
      ensures State() == SetConfigState(old(State()), cfg)
    {
      config := cfg;
      var _ := UpdatePeakUsage();
    }
  }

  /** The scan of `iter().position(f)`. */
  method Position(s: seq<NatEntry>, f: NatEntry -> bool) returns (idx: Option<nat>)
    ensures idx == FindFirst(s, f)
  {
    var i := 0;
    while i < |s|
      invariant 0 <= i <= |s|
      invariant forall j :: 0 <= j < i ==> !f(s[j])
    {
      if f(s[i]) {
        FirstIs(s, f, i);
        return Some(i);
      }
      i := i + 1;
    }
    return None;
  }
}
