/** The C entry points of the NAT engine (`src/nat/mod.rs`): the two packet
    hooks and the configuration call, over the process-wide table. */
module Hooks {
  import opened Types
  import opened Entry
  import opened Packet
  import opened Table

  /** The return code of a hook: -1 when the packet could not be handled,
      1 when it was rewritten, 0 when it passes unchanged. An inbound
      translation failure (an unsolicited packet) is not an error: 0. */
  function HookCode(r: Outcome, ctx: PacketContext, inbound: bool): (code: int)
    ensures code == 1 <==> r == Ok && ctx.needsUpdate
    ensures code == -1 <==> r.Err? && !inbound
    ensures -1 <= code <= 1
  {
    match r
    case Err(_) => if inbound then 0 else -1
    case Ok => if ctx.needsUpdate then 1 else 0
  }

  /** A parsed packet can be rewritten in its own buffer once translated:
      translation keeps the header length and the protocol, and the buffer
      holds the transport header the rewrite writes. */
  lemma TranslatedIsApplicable(pkt: NetPkt, c: PacketContext)
    requires HasData(pkt) && Writable(pkt.frags.data[..]) && FromPkt(pkt).Some?
    requires c.ipHdr.vhl == FromPkt(pkt).value.ipHdr.vhl && c.ipHdr.proto == FromPkt(pkt).value.ipHdr.proto
    ensures ApplyReady(c, pkt.frags.data[..])
  {
  }

  /** The tail shared by both hooks: the return code of the translation,
      and the rewrite of the packet in place exactly when the code is 1. */
  method Finish(pkt: NetPkt, r: Outcome, c: PacketContext, inbound: bool) returns (code: int)
    requires HasData(pkt) && Writable(pkt.frags.data[..]) && FromPkt(pkt).Some?
    requires c.ipHdr.vhl == FromPkt(pkt).value.ipHdr.vhl && c.ipHdr.proto == FromPkt(pkt).value.ipHdr.proto
    modifies pkt, pkt.frags.data
    ensures code == HookCode(r, c, inbound)
    ensures code == 1 ==> ApplyReady(c, old(pkt.frags.data[..]))
    ensures pkt.iface == if code == 1 then NewIface(c, old(pkt.iface)) else old(pkt.iface)
    ensures pkt.frags.data[..] == if code == 1 then ApplyBytes(c, old(pkt.frags.data[..])) else old(pkt.frags.data[..])
  {
    code := HookCode(r, c, inbound);
    if code == 1 {
      TranslatedIsApplicable(pkt, c);
      ApplyToPkt(c, pkt);
    }
  }

  /** The process-wide state: `NAT_TABLE`, absent until configured, and the
      capacity a table is built with. */
  class NatGlobal {
    var table: NatTable?
    const maxEntries: nat

    constructor (maxEntries: nat)
      ensures table == null && this.maxEntries == maxEntries
    {
      table := null;
      this.maxEntries := maxEntries;
    }

    ghost predicate Valid()
      reads this, table
    {
      table != null ==> table.Valid() && table.capacity == maxEntries
    }

    /** `nat_hook_outbound`: -1 for a null packet, a missing table, a packet
        that does not parse, or a failed translation; otherwise the table
        moves as `Outbound` says and the packet is rewritten exactly when
        the translation marked the context dirty (code 1), else left as it
        was (code 0). */
    method HookOutbound(pkt: NetPkt?, now: u32) returns (code: int)
      requires Valid()
      requires HasData(pkt) ==> Writable(pkt.frags.data[..])
      modifies table, Footprint(pkt)
      ensures Valid() && table == old(table)
      ensures old(pkt == null || table == null || FromPkt(pkt).None?) ==>
        code == -1 && (table != null ==> table.State() == old(table.State()))
        && (pkt != null ==> pkt.iface == old(pkt.iface))
        && (HasData(pkt) ==> pkt.frags.data[..] == old(pkt.frags.data[..]))
      ensures old(pkt != null && table != null && FromPkt(pkt).Some?) ==>
        var (s', r, c) := Outbound(old(table.State()), table.capacity, old(FromPkt(pkt).value), now);
        && table.State() == s'
        && code == HookCode(r, c, false)
        && (code == 1 ==> ApplyReady(c, old(pkt.frags.data[..])))
        && pkt.iface == (if code == 1 then NewIface(c, old(pkt.iface)) else old(pkt.iface))
        && pkt.frags.data[..] == (if code == 1 then ApplyBytes(c, old(pkt.frags.data[..])) else old(pkt.frags.data[..]))
    {
      if pkt == null || table == null {
        return -1;
      }
      var parsed := FromPkt(pkt);
      if parsed.None? {
        return -1;
      }
      var t := table;
      ghost var s := t.State();
      var r, c := t.TranslateOutbound(parsed.value, now);
      OutboundKeepsHeaderShape(s, t.capacity, parsed.value, now);
      code := Finish(pkt, r, c, false);
    }

    /** `nat_hook_inbound`: as the outbound hook, except that a failed
        translation (no entry for an unsolicited packet, an unknown
        protocol) answers 0 and leaves the packet alone. */
    method HookInbound(pkt: NetPkt?, now: u32) returns (code: int)
      requires Valid()
      requires HasData(pkt) ==> Writable(pkt.frags.data[..])
      modifies table, Footprint(pkt)
      ensures Valid() && table == old(table)
      ensures old(pkt == null || table == null || FromPkt(pkt).None?) ==>
        code == -1 && (table != null ==> table.State() == old(table.State()))
        && (pkt != null ==> pkt.iface == old(pkt.iface))
        && (HasData(pkt) ==> pkt.frags.data[..] == old(pkt.frags.data[..]))
      ensures old(pkt != null && table != null && FromPkt(pkt).Some?) ==>
        var (s', r, c) := Inbound(old(table.State()), old(FromPkt(pkt).value), now);
        && table.State() == s'
        && code == HookCode(r, c, true)
        && (code == 1 ==> ApplyReady(c, old(pkt.frags.data[..])))
        && pkt.iface == (if code == 1 then NewIface(c, old(pkt.iface)) else old(pkt.iface))
        && pkt.frags.data[..] == (if code == 1 then ApplyBytes(c, old(pkt.frags.data[..])) else old(pkt.frags.data[..]))
    {
      if pkt == null || table == null {
        return -1;
      }
      var parsed := FromPkt(pkt);
      if parsed.None? {
        return -1;
      }
      var t := table;
      ghost var s := t.State();
      var r, c := t.TranslateInbound(parsed.value, now);
      InboundKeepsHeaderShape(s, parsed.value, now);
      code := Finish(pkt, r, c, true);
    }

    /** `nat_configure`: creates the table on first use, then refuses (-1,
        configuration untouched) when any address pointer is null, and
        otherwise installs a configuration built from the first four bytes
        of each address and the two interfaces (0). */
    method Configure(internalNet: array?<byte>, internalMask: array?<byte>, externalIp: array?<byte>,
                     internalIface: NetIf, externalIface: NetIf) returns (code: int)
      requires Valid()
      requires internalNet != null ==> internalNet.Length >= 4
      requires internalMask != null ==> internalMask.Length >= 4
      requires externalIp != null ==> externalIp.Length >= 4
      modifies this, table
      ensures Valid() && table != null
      ensures old(table) != null ==> table == old(table)
      ensures old(table) == null ==> fresh(table)
      ensures var before := if old(table) == null then NatState([], PORT_RANGE_START, DefaultConfig(), 0)
                            else old(table.State());
        if internalNet == null || internalMask == null || externalIp == null then
          code == -1 && table.State() == before
        else
          code == 0 &&
          table.State() == SetConfigState(before, NatConfig(old(internalNet[..4]), old(internalMask[..4]),
                                                            old(externalIp[..4]), internalIface, externalIface))
    {
      if table == null {
        table := new NatTable(maxEntries);
      }
      if internalNet == null || internalMask == null || externalIp == null {
        return -1;
      }
      var cfg := NatConfig(internalNet[..4], internalMask[..4], externalIp[..4], internalIface, externalIface);
      table.SetConfig(cfg);
      return 0;
    }
  }
}
