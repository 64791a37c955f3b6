# NAT engine model

A Dafny model of the network address and port translation (NAPT, RFC 3022)
engine of a Zephyr Wi-Fi router firmware written in Rust. The model covers
five parts, one Dafny module each:

- `Checksum` (`checksum.dfy`): the Internet checksum of RFC 1071 and its
  incremental update (equation 3 of RFC 1624). Each is a loop over a `u32`
  accumulator, proved against pure specification functions (`WordSum`,
  `Fold`, `InternetChecksum`, `IncrementalUpdate`).
- `Entry` (`entry.dfy`): the protocol enum {TCP=6, UDP=17, ICMP=1}, the
  connection entry, outbound and inbound flow matching, and per-protocol
  idle expiry.
- `Packet` (`packet.dfy`) and `PacketLemmas` (`packet_lemmas.dfy`): decoding
  of the IPv4 header (section 3.1 of RFC 791) and of the transport ports,
  and the in-place rewrite of a packet buffer. The rewrite stores the
  addresses, recomputes the IPv4 header checksum, and updates the TCP or UDP
  checksum incrementally. The raw packet is a class holding an interface id
  and a byte array. The rewrite is specified by `ApplyBytes`, a function of
  the old buffer.
- `Table` (`table.dfy`): the bounded table of connection entries with
  subnet classification, the rotating port cursor, the expiry sweep, and
  outbound and inbound translation. Translation is specified on an abstract
  state (`NatState`) by `Outbound` and `Inbound`. The class `NatTable`
  updates its fields step by step and is proved to follow them.
- `Hooks` (`hooks.dfy`): the two C entry points for packets and the
  configuration call, over a table that is absent until first configured.
  They return the codes -1, 0 and 1.

`Types` (`types.dfy`) holds bytes, 16- and 32-bit unsigned subranges,
4-byte addresses, interface ids with a null value, and big-endian word
access.

The rewrite in the source checks buffer lengths against slices it has
itself built with exactly the requested length, so those checks always
pass. The model states the real requirement instead: the buffer must hold
the bytes that are read (`Readable`) and written (`Writable`,
`ApplyReady`), as preconditions.

## Model

| member | source | states |
|---|---|---|
| Checksum.Fold | src/nat/checksum.rs:18-20 | the end-around-carry fold ends at a value of at most 0xFFFF |
| Checksum.FoldSpec | src/nat/checksum.rs:18-20 | the folded value is congruent to the raw sum modulo 0xFFFF, and is 0 exactly when the raw sum is 0 |
| Checksum.FoldLoop | src/nat/checksum.rs:18-20 | the carry-fold loop computes `Fold` of its starting sum |
| Checksum.IpChecksum | src/nat/checksum.rs:6-23 | the chunk loop computes the complement of the folded big-endian word sum (odd last byte as a high byte), and the `u32` accumulator never overflows |
| Checksum.UpdateChecksum | src/nat/checksum.rs:26-35 | computes ~HC' = ~HC + ~m + m' with end-around carry, and the accumulator stays below 3 * 0xFFFF |
| Checksum.WordSumReplace | src/nat/checksum.rs:9-16 | replacing an aligned word changes the word sum by exactly new minus old |
| Checksum.FoldDeterminedByResidue | src/nat/checksum.rs:18-20 | two sums with the same residue modulo 0xFFFF and the same zeroness fold to the same value |
| Checksum.FoldOfMultiple | src/nat/checksum.rs:18-20 | a positive multiple of 0xFFFF folds to 0xFFFF |
| Checksum.FoldDifference | src/nat/checksum.rs:18-20 | folding only ever subtracts multiples of 0xFFFF |
| Checksum.SumPlusComplement | src/nat/checksum.rs:18-22 | a sum plus its checksum is a positive multiple of 0xFFFF |
| Checksum.SelfCheck | src/nat/checksum.rs:6-23 | writing the checksum of a region into its zeroed aligned checksum word makes the region check to 0 |
| Checksum.AccumulatorCongruent | src/nat/checksum.rs:27-33 | the incremental accumulator is congruent to the sum with the word replaced |
| Checksum.IncrementalOnSums | src/nat/checksum.rs:26-35 | on sums, the incremental update equals the full checksum of the new sum, or 0 when that sum is 0 |
| Checksum.IncrementalEquivalence | src/nat/checksum.rs:6-35 | replacing one aligned word, the incremental update equals the recomputed checksum, except when the new word sum is 0 (0x0000 against 0xFFFF) |
| Checksum.UpdateUnchanged | src/nat/checksum.rs:26-35 | an update that replaces a word by itself leaves every checksum except 0xFFFF unchanged (0xFFFF becomes 0) |
| Entry.FromU8 | src/nat/entry.rs:21-28 | yields a protocol exactly for 6, 17 and 1, and the variant's number is the input |
| Entry.FromU8Number | src/nat/entry.rs:14-28 | decoding a protocol's own number gives it back |
| Entry.NatEntry.MatchesOutbound | src/nat/entry.rs:86-115 | a live entry matches exactly the packets with its outbound key: same protocol, internal and remote address, internal port, and remote port except for ICMP |
| Entry.NatEntry.MatchesInbound | src/nat/entry.rs:118-152 | a live entry matches exactly the replies with its inbound key: same protocol, remote address, external port, and remote port except for ICMP |
| Entry.NatEntry.Touch | src/nat/entry.rs:155-157 | sets the last activity to `now` and changes no other field |
| Entry.NatEntry.IsExpired | src/nat/entry.rs:160-170 | expired iff not in use or `now` is more than the protocol's timeout past the last activity |
| Entry.NewEntryIsFree | src/nat/entry.rs:69-83 | a new entry is not in use, matches nothing in either direction, and is always expired |
| Entry.ExpiryBoundary | src/nat/entry.rs:164-169 | a live entry is still live at exactly last activity plus timeout and expired one millisecond later |
| Entry.ClockBehindNeverExpires | src/nat/entry.rs:169 | a clock at or before the last activity never expires a live entry |
| Entry.TouchKeepsMatching | src/nat/entry.rs:155-157 | touching keeps both lookup keys and the in-use flag |
| Packet.Decode | src/packet.rs:45-103 | decoding succeeds exactly for version 4 with a header length in [20, 60]; a fresh context is clean and bound to the parsing interface |
| Packet.FromPkt | src/packet.rs:21-105 | nothing for a null packet, fragment or data pointer; otherwise the decoding of the buffer on the packet's interface |
| Packet.WriteAddrs | src/packet.rs:134-135 | bytes 12..20 become the two addresses and no other byte changes |
| Packet.IpStage | src/packet.rs:131-145 | the IP stage changes only bytes 10..20, stores both addresses, and keeps bytes 10..12 when neither address changed |
| Packet.RefreshIpChecksum | src/packet.rs:139-144 | the checksum refresh changes only bytes 10 and 11 |
| Packet.RefreshSelfChecks | src/packet.rs:139-144 | after the refresh the header checks to 0 |
| Packet.TcpStage | src/packet.rs:150-196 | the TCP stage writes the new ports and the incrementally updated checksum word, and nothing else |
| Packet.UdpStage | src/packet.rs:198-250 | as for TCP on the UDP checksum word, with a stored checksum of 0 left at 0 |
| Packet.ApplyBytes | src/packet.rs:129-253 | the rewrite touches only IP bytes 10..20 and, for TCP/UDP, the ports and checksum word; its header is the IP stage's |
| Packet.ApplyToPkt | src/packet.rs:107-257 | nothing for a clean context or a null packet; otherwise the interface changes only to a new non-null one and the buffer becomes `ApplyBytes` of the old buffer |
| Packet.WriteIpHeader | src/packet.rs:131-145 | the in-place IP stage leaves the buffer equal to `IpStage` of the old buffer |
| Packet.UpdateIpChecksum | src/packet.rs:139-144 | the in-place checksum refresh leaves the buffer equal to `RefreshIpChecksum` of the old buffer |
| Packet.CopyAddrs | src/packet.rs:134-135 | the in-place address copy leaves the buffer equal to `WriteAddrs` of the old buffer |
| Packet.ChainChecksum | src/packet.rs:165-193 | the chain of `update16!` steps threads the checksum through the ports and, when changed, both address halves |
| Packet.Store16 | src/packet.rs:162-163 | storing a big-endian word in place |
| Packet.RewriteTcp | src/packet.rs:151-196 | the in-place TCP stage leaves the buffer equal to `TcpStage` of the old buffer |
| Packet.RewriteUdp | src/packet.rs:198-250 | the in-place UDP stage leaves the buffer equal to `UdpStage` of the old buffer |
| PacketLemmas.IpStageKeepsTransport | src/packet.rs:131-145 | the IP stage never changes a word of the transport header |
| PacketLemmas.ApplyWritesAddresses | src/packet.rs:131-135 | after the rewrite bytes 12..20 hold the context's source and destination |
| PacketLemmas.ApplyIpChecksum | src/packet.rs:137-145 | if an address changed the header checks to 0, otherwise bytes 10..12 are untouched |
| PacketLemmas.ApplyTcp | src/packet.rs:158-195 | TCP: new ports at L4 offsets 0 and 2, and the chained incremental checksum at offset 16 |
| PacketLemmas.ApplyUdp | src/packet.rs:205-249 | UDP: new ports, and at offset 6 the chained checksum, or 0 if the stored checksum was 0 |
| PacketLemmas.ParsedRewriteIsIdentity | src/packet.rs:131-252 | rewriting a just-parsed context leaves the buffer byte-for-byte identical |
| PacketLemmas.DecodeAfterApply | src/packet.rs:60-94 | decoding the rewritten buffer gives back the context's addresses and TCP/UDP ports, with the other header fields unchanged |
| PacketLemmas.Update16OnSums | src/packet.rs:165-170 | one `update16!` step on a complemented folded sum replaces the word in the sum |
| PacketLemmas.AddrUpdateOnSums | src/packet.rs:176-193 | the two address-half steps replace both halves in the sum |
| PacketLemmas.L4ChecksumIsFull | src/packet.rs:173-193 | the whole chain of incremental updates equals the checksum recomputed over the rewritten ports and pseudo-header |
| Table.HardCodedBroadcastGate | src/nat/table.rs:198-210 | under 10.0.0.0/24 the broadcast gate compares against 192.168.4.255, so an internal host's packet to that external address is never translated |
| Table.BroadcastTests | src/nat/table.rs:193-210 | the octet-wise broadcast tests hold exactly when the destination equals 255.255.255.255, or equals the broadcast of 192.168.4.1 under the netmask |
| Types.OctetMasks | src/nat/table.rs:202-205 | under a 255 mask an octet keeps its bits and its broadcast octet is itself; under a 0 mask it is cleared and its broadcast octet is 255 |
| Table.PortCursorLeavesRange | src/nat/table.rs:110-117 | as written, the wrap test never fires and the cursor goes from 65535 to 0 |
| Table.PortCursorCycles | src/nat/table.rs:110-117 | the corrected cursor hands out 50000 + k on its k-th allocation and is back at 50000 after all 15536 ports |
| Table.NextPortInRange | src/nat/table.rs:110-117 | the corrected cursor never leaves [50000, 65535] and always moves |
| Table.FindFirst | src/nat/table.rs:128-130 | the first index whose entry satisfies the predicate, or none when no entry does |
| Table.Retain | src/nat/table.rs:147-165 | the sweep never grows the table |
| Table.RetainKeepsLive | src/nat/table.rs:152 | the sweep keeps exactly the entries that are not expired |
| Table.RetainConcat | src/nat/table.rs:152 | the sweep keeps the survivors in their order |
| Table.RetainAllLive | src/nat/table.rs:147-152 | with nothing expired the sweep changes nothing |
| Table.OutboundPreservesValid | src/nat/table.rs:169-291 | outbound translation keeps the table within capacity, every entry live with an ICMP port of 0 or a port in range, the cursor in range, and never lowers the peak |
| Table.MissPreservesValid | src/nat/table.rs:240-290 | the miss path keeps the invariant: the sweep keeps only valid entries and a new entry is pushed only below the capacity |
| Table.InboundPreservesValid | src/nat/table.rs:295-323 | inbound translation keeps the invariant and changes nothing but one entry's timestamp |
| Table.SetConfigPreservesValid | src/nat/table.rs:326-335 | the configuration call keeps the invariant and the peak |
| Table.GatesPassThrough | src/nat/table.rs:170-210 | a skipped packet leaves table and context as they were; any change implies an internal source and an external, non-multicast, non-broadcast destination |
| Table.UnknownProtocolRefused | src/nat/table.rs:212 | past the gates an unknown protocol is an error before any table change |
| Table.OutboundKeepsHeaderShape | src/nat/table.rs:215-280 | outbound translation changes only the source address, the source port and the interface |
| Table.InboundKeepsHeaderShape | src/nat/table.rs:308-320 | inbound translation changes only the destination address, the destination port and the interface |
| Table.OutboundHit | src/nat/table.rs:215-237 | a hit touches the first matching entry, maps the source to its external endpoint, adds no entry and moves no cursor |
| Table.OutboundIdempotent | src/nat/table.rs:215-290 | translating the same 5-tuple again yields the same packet with no new entry and no port allocated |
| Table.OutboundInboundSymmetry | src/nat/table.rs:243-313 | after a TCP/UDP miss maps (src, sport) to (ext, p), a reply from (dst, dport) to (ext, p) is mapped back to (src, sport), if no older entry matches it |
| Table.IcmpInboundIgnoresIdentifier | src/nat/entry.rs:140-146 | an ICMP entry matches a parsed ICMP reply exactly when the reply comes from its remote address, whatever the identifier |
| Table.TableFullRefuses | src/nat/table.rs:241-267 | a miss fails exactly when the swept table is full; then the packet is untouched but the sweep has happened and the cursor has moved |
| Table.MissSweepsExpired | src/nat/table.rs:241 | after a miss no expired entry remains |
| Table.InboundCases | src/nat/table.rs:295-323 | traffic not for the external address passes, a failure changes nothing, and a match maps to a live entry's internal endpoint and touches it |
| Table.NatTable.constructor | src/nat/table.rs:60-66 | an empty table, cursor at 50000, default configuration |
| Table.NatTable.UpdatePeakUsage | src/nat/table.rs:68-85 | returns the size and raises the peak to it |
| Table.NatTable.IsInternalIp | src/nat/table.rs:88-97 | the octet loop decides `ip & mask == network & mask` |
| Table.NatTable.IsExternalIp | src/nat/table.rs:100-102 | exact four-byte equality with the external address |
| Table.NatTable.LanBroadcastAddr | src/nat/table.rs:200-205 | the octet loop builds the broadcast of 192.168.4.1 under the netmask |
| Table.NatTable.AllocatePort | src/nat/table.rs:110-117 | returns the cursor and advances it, wrapping to 50000 |
| Table.NatTable.FindOutbound | src/nat/table.rs:120-131 | the first entry matching the packet outbound |
| Table.NatTable.FindInbound | src/nat/table.rs:134-144 | the first entry matching the reply inbound |
| Table.NatTable.Cleanup | src/nat/table.rs:147-165 | the entries become the sweep of the old entries |
| Table.NatTable.SkipsOutbound | src/nat/table.rs:170-210 | the gates decide exactly `OutboundSkipped` |
| Table.NatTable.AddFlow | src/nat/table.rs:240-290 | the miss path moves the table and context as `OutboundMiss` says |
| Table.NatTable.TranslateOutbound | src/nat/table.rs:169-291 | table, result and context move as `Outbound` says, and the invariant holds |
| Table.NatTable.TranslateInbound | src/nat/table.rs:295-323 | table, result and context move as `Inbound` says, and the invariant holds |
| Table.NatTable.SetConfig | src/nat/table.rs:326-335 | replaces the configuration and raises the peak to the size |
| Table.Position | src/nat/table.rs:128-130 | the scan returns `FindFirst` |
| Hooks.HookCode | src/nat/mod.rs:42-58 | 1 exactly for success with a dirty context, -1 exactly for an outbound failure, 0 otherwise |
| Hooks.Finish | src/nat/mod.rs:42-58 | the code of the translation, with the packet rewritten to `ApplyBytes` and retargeted exactly when the code is 1, and left alone otherwise |
| Hooks.NatGlobal.HookOutbound | src/nat/mod.rs:18-59 | -1 with nothing changed for a null packet, no table or a parse failure; otherwise the table moves as `Outbound` says and the packet is rewritten exactly when the code is 1 |
| Hooks.NatGlobal.HookInbound | src/nat/mod.rs:63-105 | as the outbound hook over `Inbound`, with a translation failure answered by 0 |
| Hooks.NatGlobal.Configure | src/nat/mod.rs:108-144 | creates the table if absent; -1 with the configuration unchanged for a null address; otherwise installs the four bytes of each address and both interfaces and returns 0 |

## Left out

- Logging (`log::` calls) and the statistics it prints are not modelled.
- `k_uptime_get_32` is a parameter `now`. The source reads the clock separately for the sweep, the touch and the new entry. The model uses one value per call.
- `net_pkt_set_modified` is a foreign call with no effect on the modelled state and is left out.
- The unsynchronised `static mut` globals are fields of objects the model owns: `NAT_TABLE` is `NatGlobal.table` and `PEAK_NAT_USAGE` is `NatTable.peak`. Concurrent hook calls are not modelled.
- `MAX_NAT_ENTRIES` is a build-time setting. The model takes it as a constructor parameter.
- The memory layout of `net_pkt` and `net_buf` (`src/ffi.rs`) is not part of this model. A packet is an interface id plus an optional byte array, and the fragment's `len` field is not modelled.
- Raw pointers to `net_if` are opaque ids with a null value. Pointer addresses passed to `nat_configure` are 4-byte arrays that must hold at least 4 bytes when non-null.
- Translate calls return `Result<(), ()>` in the source. The model's `Outcome` names the reason for an error; the hooks do not look at it.
- Table.NatTable.AllocatePort: follows the evidently intended wrap to 50000; the as-written arithmetic is under Findings.
- Checksum.IpChecksum: requires at most 128 KiB of data, beyond which the source's `u32` accumulator could overflow; every caller passes a header of at most 60 bytes.
- Entry.NatEntry.Touch: the source updates the entry in place through `&mut`; the model returns the updated value and the table stores it at the same index.
- Packet.Decode: the `Readable` precondition replaces the source's length checks, which can never fail.
- Table.OutboundInboundSymmetry: proved only when no older entry also matches the reply; the first matching entry wins in the source.

## Findings

| source | as written | input that shows it | evidently intended | confidence | as-written member | corrected member |
|---|---|---|---|---|---|---|
| src/nat/table.rs:110-117 | `next_port += 1` on a `u16`, then a `> 65535` test that no `u16` can pass | `next_port` = 65535: a release build wraps to 0 (a debug build panics), and later flows get ports 0, 1, 2, ... | after 65535 the cursor returns to 50000, so ports cycle in [50000, 65535] | not executed | Table.PortCursorLeavesRange | Table.PortCursorCycles |
