# ipforensics core in Dafny

ipforensics reads Ethernet frames, either from a capture file or from a live
device. It works out which hosts are on the network, each identified by its
MAC address. For every host it records the first IPv4 and the first IPv6
address it is seen with. It then prints a report sorted by MAC, with one
73-character row per host and a count of IPv4-only, IPv6-only and
dual-stack hosts.

This project models the core of that program as pure Dafny functions,
methods and lemmas:

- `types.dfy` (`Types`): bytes, 16- and 32-bit unsigned integers, `Option`, and a bitwise AND on bytes.
- `text.dfy` (`Text`): decimal and hex numerals, padding, trimming, joining with a separator, and the sign-valued string comparison of `std::string::compare`.
- `ipf.dfy` (`Ipf`): the library constants (frame offsets, field lengths, ethertypes, column widths, report header and footer).
- `address.dfy` (`Addresses`): `Address` as a byte sequence, where the empty sequence means "not set". It covers `==`/`!=`, the MAC, IPv4 and IPv6 text forms, the IPv4 address built from a `uint32`, and the subnet test `mask`.
- `packet.dfy` (`Packets`): the frame decoder `Packet::Packet`, `ipv4()` and `ipv6()`, and a reference frame builder that decoding inverts.
- `host.dfy` (`Hosts`): `Host`, its constructors and setters, the set ordering `operator<`, and the report row `operator<<`.
- `host_table.dfy` (`HostTable`): `add_host`, `update_host`, the extraction loop of `load_hosts`, `clean_hosts`, the MAC-ordered listing of the host set, and the summary counters of `results`.

The host set (`std::set<Host>` ordered by MAC text) is modelled as a map from
MAC bytes to hosts. `Hosts.LessEquivalence` proves this choice sound. Two
hosts with six-byte MACs are equivalent under `operator<` exactly when their
MACs are equal, so the set holds exactly one host per MAC.
`HostTable.Listing` recovers the set's iteration order, ascending by MAC.

The table's behaviour is stated against an independent reference
definition. `HostTable.Extracted` gives, for each MAC, the first IPv4 and the
first IPv6 address found among that MAC's sightings, in packet order, source
before destination. `HostTable.AbsorbSpec` proves that the add/update loop
computes exactly this.

Some behaviour of the C++ code is worth stating plainly, because a reader
might expect otherwise:

- IPv6 text is eight unpadded hex groups joined by `:`. Runs of zero groups are not compressed to `::`. The comment on `IPv6Address::str` marks full RFC 5952 support as a to-do (src/address.cpp:128-132), and the body prints every group (`Addresses.IPv6StrAllZero`, `Addresses.IPv6StrFields`).
- `operator<` is `rhs.mac().str().compare(lhs.mac().str()) > 0` (src/host.cpp:67-69). It sorts ascending by MAC text (`Hosts.LessAscending`).
- The decoder does not check the frame length; it reads the capture buffer at fixed offsets (src/packet.cpp:38-100). Nothing else checks it either. The 256-byte `kSnapLength` is only passed to `pcap_open_live` (src/device.cpp:91), and the capture-file path never looks at the captured length of a frame. The model therefore takes a long enough frame as an unchecked assumption, the precondition `Packets.Decodable`. `Packets.SnapshotIsDecodable` only says which lengths meet it: 54 bytes or more.
- Addresses are built from byte vectors with no length check. The model keeps any length, and states as preconditions the lengths at which `str()` and `mask()` read in bounds.

## Model

| member | source | states |
|---|---|---|
| `Addresses.Address.IsEmpty` | include/ipforensics/address.h:109-113 | an address is unset exactly when it holds no bytes |
| `Addresses.UnsetIsEmpty` | include/ipforensics/address.h:109-113 | an address is empty exactly when it is the default-constructed one |
| `Addresses.Equals` | src/address.cpp:52-58 | true iff the sizes match and every byte matches, which is exactly value equality |
| `Addresses.NotEquals` | src/address.cpp:65-67 | true iff the addresses differ: the negation of `==` |
| `Addresses.MacStr` | src/address.cpp:72-82 | "" exactly when the MAC is unset, otherwise exactly 17 characters |
| `Addresses.MacOctetIsPadded` | src/address.cpp:77-78 | each byte prints as its unpadded hex numeral, left-padded with '0' to width 2 |
| `Addresses.MacStrLayout` | src/address.cpp:74-80 | byte k prints as its two hex digits at columns 3k and 3k+1, followed by ':' except after the last byte |
| `Addresses.MacStrInjective` | src/address.cpp:72-82 | two six-byte MACs print alike iff they are equal |
| `Addresses.MacStrOrder` | src/address.cpp:72-82 | comparing MAC texts gives the lexicographic comparison of the first six bytes |
| `Addresses.IPv4Str` | src/address.cpp:99-108 | "" exactly when unset, otherwise 7 to 15 characters |
| `Addresses.IPv4StrInjective` | src/address.cpp:99-108 | two four-byte IPv4 addresses print alike iff they are equal |
| `Addresses.IPv4StrFields` | src/address.cpp:102-105 | split at '.', the text has exactly four fields; field k has 1 to 3 decimal digits, no leading zero, and reads back as byte k |
| `Addresses.IPv6Str` | src/address.cpp:133-143 | "" exactly when unset, otherwise 15 to 39 characters |
| `Addresses.IPv6StrAllZero` | src/address.cpp:128-143 | the all-zero address prints as "0:0:0:0:0:0:0:0": zero runs are not compressed |
| `Addresses.IPv6StrInjective` | src/address.cpp:133-143 | two sixteen-byte IPv6 addresses print alike iff they are equal |
| `Addresses.IPv6StrFields` | src/address.cpp:136-141 | split at ':', the text has exactly eight fields; field k has 1 to 4 lower-case hex digits, no leading zero, and reads back as byte 2k times 256 plus byte 2k+1 |
| `Addresses.StrEndsInDigit` | src/address.cpp:72-143 | every printed address is empty or ends in a digit, never in padding |
| `Addresses.IPv4FromUint32` | src/address.cpp:92-97 | four bytes whose little-endian value is the integer: the least significant byte comes first |
| `Addresses.LittleEndianRoundTrip` | src/address.cpp:92-97 | reading bytes as a little-endian number and splitting it again gives the bytes back |
| `Addresses.IPv4FromUint32Onto` | src/address.cpp:92-97 | every four-byte address is the image of exactly one 32-bit integer |
| `Addresses.Mask` | src/address.cpp:117-123 | true iff the network address has four bytes and each equals the AND of the address byte and the mask byte |
| `Addresses.MaskReadsFourBytes` | src/address.cpp:117-123 | addresses that agree on their first four bytes pass or fail the subnet test alike |
| `Addresses.MaskAllOnes` | src/address.cpp:117-123 | with the mask 255.255.255.255 an address is in the subnet iff it equals the network address |
| `Packets.EtherTypeOf` | src/packet.cpp:54-55 | the big-endian 16-bit value of bytes 12 and 13 |
| `Packets.SnapshotIsDecodable` | src/packet.cpp:38-100 | a frame of 54 bytes or more covers every field the decoder reads, whatever its ethertype |
| `Packets.Decode` | src/packet.cpp:38-100 | MACs from bytes 6..12 and 0..6; IPv4 reads 26..30 and 30..34; ARP reads 28..32 into the IPv4 source only; IPv6 reads 22..38 and 38..54; other fields stay unset |
| `Packets.NeverDualStack` | src/packet.cpp:56-99 | no decoded packet has both an IPv4 and an IPv6 address |
| `Packets.Packet.IsIPv4` | src/packet.cpp:116 | `ipv4()` holds exactly when the ethertype is IPv4 |
| `Packets.Packet.IsIPv6` | src/packet.cpp:118 | `ipv6()` holds exactly when the ethertype is IPv6 |
| `Packets.KindPredicates` | src/packet.cpp:116-118 | `ipv4()` iff the IPv4 destination is set, `ipv6()` iff the IPv6 source is set; an ARP frame sets an IPv4 source but is not `ipv4()` |
| `Packets.DecodeEncode` | src/packet.cpp:38-100 | decoding the frame built from any well-formed packet gives that packet back |
| `Packets.DecodeReadsOnlyExtent` | src/packet.cpp:38-100 | frames that agree up to the last byte their ethertype reads decode alike |
| `Hosts.FromMac` | src/host.cpp:33-35 | a host with that MAC and no IP address |
| `Hosts.SetIPv4` | src/host.cpp:55-57 | replaces the IPv4 address and keeps the MAC and IPv6 address |
| `Hosts.SetIPv6` | src/host.cpp:59-61 | replaces the IPv6 address and keeps the MAC and IPv4 address |
| `Hosts.Less` | src/host.cpp:67-69 | l comes before r when r's MAC text compares greater than l's; only the MACs must be printable |
| `Hosts.LessAscending` | src/host.cpp:63-69 | l comes before r iff l's MAC text compares lower, iff l's MAC bytes compare lower |
| `Hosts.LessStrictOrder` | src/host.cpp:67-69 | irreflexive, asymmetric and transitive |
| `Hosts.LessEquivalence` | src/host.cpp:67-69 | neither host comes first iff the MAC texts are equal; for six-byte MACs iff the MACs are equal |
| `Hosts.Row` | src/host.cpp:76-82 | 73 characters, with a space closing the MAC and the IPv4 columns |
| `Hosts.RowColumns` | src/host.cpp:76-82 | columns 0..18, 18..34 and 34..73 with trailing spaces removed are the MAC, IPv4 and IPv6 texts |
| `Hosts.RowInjective` | src/host.cpp:76-82 | two well-formed hosts print the same row iff they are equal |
| `HostTable.AddHost` | src/ip4and6.cpp:201-203 | insert semantics: a present MAC leaves the table unchanged; otherwise the host is added and the size grows by one |
| `HostTable.UpdateHost` | src/ip4and6.cpp:205-216 | the MAC is kept; a set address is kept; an unset address takes the sighting's address |
| `HostTable.UpdateHostIdempotent` | src/ip4and6.cpp:205-216 | updating twice with the same addresses is updating once; a host with both addresses never changes |
| `HostTable.Observe` | src/ip4and6.cpp:183-188 | the keys grow by the sighting's MAC only; every other host is unchanged |
| `HostTable.ObservePreserves` | src/ip4and6.cpp:183-195 | each host stays stored under its own MAC, and hosts stay well formed |
| `HostTable.SightingsAt` | src/ip4and6.cpp:181-196 | packet i contributes sighting 2i, its source host, then sighting 2i+1, its destination host |
| `HostTable.SightingOrigin` | src/ip4and6.cpp:181-196 | every sighting is the source or destination host of some packet |
| `HostTable.AbsorbKeys` | src/ip4and6.cpp:181-196 | after the sightings the table holds the old MACs plus the sighted MACs, at most one new host per sighting |
| `HostTable.FirstAddrUnset` | src/ip4and6.cpp:205-216 | the reference address is unset iff no sighting of the MAC carries one of that family |
| `HostTable.FirstAddrAt` | src/ip4and6.cpp:205-216 | the reference address is the one from the first sighting of the MAC that carries one |
| `HostTable.AbsorbSpec` | src/ip4and6.cpp:181-196 | every stored host equals the reference host, whose addresses are each the first one seen for its MAC, with the existing entry counted as the earliest sighting |
| `HostTable.AbsorbFromEmpty` | src/ip4and6.cpp:181-196 | from an empty table, every host is the reference host of its sightings |
| `HostTable.FirstObservationWins` | src/ip4and6.cpp:205-216 | the first sighting of a MAC that carries an address decides that address of the stored host |
| `HostTable.AbsorbMonotone` | src/ip4and6.cpp:205-216 | no host is lost, no MAC changes, and no address once set is overwritten |
| `HostTable.AbsorbIdempotent` | src/ip4and6.cpp:181-196 | feeding the same packets a second time leaves the table unchanged |
| `HostTable.AbsorbPacket` | src/ip4and6.cpp:181-196 | one packet is the source observation followed by the destination observation |
| `HostTable.ExtractedMacs` | src/ip4and6.cpp:181-196 | the table holds exactly the source and destination MACs of the packets, at most two hosts per packet |
| `HostTable.ExtractHosts` | src/ip4and6.cpp:181-196 | the loop builds the fold of the observations over the packets, with well-formed hosts stored under their own MACs |
| `HostTable.Removable` | src/ip4and6.cpp:227-234 | a host is removed when any of its addresses is fake, or a subnet is given and its IPv4 address is set and fails the mask |
| `HostTable.Clean` | src/ip4and6.cpp:222-241 | a host is dropped iff an address is fake or, with a subnet given, its IPv4 address is set and outside the subnet; survivors are unchanged |
| `HostTable.CleanHosts` | src/ip4and6.cpp:222-241 | the loop removes exactly the hosts the removal test selects, keeps the rest unchanged, and equals the declarative clean |
| `HostTable.CleanIdempotent` | src/ip4and6.cpp:222-241 | cleaning twice is cleaning once |
| `HostTable.CleanSubnetOnlyJudgesIPv4` | src/ip4and6.cpp:230-234 | the subnet only decides for hosts with an IPv4 address; with no subnet only the fake tests remove |
| `HostTable.CleanAllOnesMask` | src/ip4and6.cpp:230-234 | with mask 255.255.255.255 and no fake address, a host with IPv4 survives iff its IPv4 is the network address |
| `HostTable.LoadHosts` | src/ip4and6.cpp:180-198 | a MAC ends in the table iff some packet carries it and its reference host is not removable; its host is that reference host |
| `HostTable.LeastKey` | src/ip4and6.cpp:254-256 | returns the MAC that sorts before every other MAC of the set |
| `HostTable.Listing` | src/ip4and6.cpp:254-256 | every host of the table exactly once, strictly ascending under `operator<` |
| `HostTable.CountsPartition` | src/ip4and6.cpp:258-263 | every host is exactly one of no-address, IPv4-only, IPv6-only or dual-stack |
| `HostTable.Summarize` | src/ip4and6.cpp:258-263 | the counters equal the per-kind counts, and their sum is the number of hosts that have an IP address |
| `Ipf.FrameLayout` | include/ipforensics/ip4and6.h:233-287 | Ethernet fields are contiguous; address pairs are adjacent; everything fits the snapshot; the ethertypes are distinct; the broadcast constants have full length |
| `Ipf.HeaderRuleWidth` | include/ipforensics/ip4and6.h:292-296 | the header rule and the footer are as wide as a 73-character row |

## Left out

- Capture I/O: opening files or devices through libpcap, `load_devices`, live capture, and the packet-count limit on reading are not modelled. The model starts from the sequence of frames already read.
- Report output: writing to the console or a file, and `ip46file`, are not modelled. The row, header and footer texts and the counters are.
- The "migrated" percentage in `results` is not modelled: it is floating-point arithmetic.
- The `fake()` tests of the three address kinds are not modelled. Their definitions are not part of this model, so `HostTable.FakeTests` takes them as parameters.
- `main`, argument parsing, and the address text parsers are not modelled.
- The `std::set` iterator mechanics (`find`, `erase(it++)`) are not modelled. The set is a map keyed by MAC bytes, which is justified by `Hosts.LessEquivalence`.
- `Packet::operator<<`, `Address::operator<<` and the getters are not modelled: they only print or return stored fields.
- HostTable.LoadHosts: in live mode the subnet mask is read at four indices whatever its length, even if the device lookup failed and left it empty. The model requires a mask of at least four bytes (`HostTable.Usable`) instead of modelling that out-of-bounds read.
- Packets.Decode: the decoder reads past the end of a frame too short for its ethertype, and no part of the program rules such frames out. The model requires a frame long enough (`Packets.Decodable`) instead of modelling that out-of-bounds read; this is an assumption about the capture, not a property the code guarantees.
- Addresses.MacStr: requires a set MAC to have at least six bytes; the C++ code would read out of bounds on a shorter one.
- Addresses.IPv4Str: requires a set IPv4 address to have at least four bytes; the C++ code would read out of bounds on a shorter one.
- Addresses.IPv6Str: requires a set IPv6 address to have at least sixteen bytes; the C++ code would read out of bounds on a shorter one.
- Addresses.Mask: requires the address and the mask to have at least four bytes; the C++ code would read out of bounds on shorter ones.
- RFC 5952 zero compression of IPv6 text is not modelled: the code does not implement it.
