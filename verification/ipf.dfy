/**
 * The library-wide constants of the `ipf` namespace: address lengths, the
 * fixed offsets of the address fields in an Ethernet frame, the ethertypes the
 * decoder recognises, the broadcast addresses and the console report header.
 */
module Ipf {
  import opened Types
  import opened Text

  /** Ethernet frame snapshot length requested from the capture library. */
  const SnapLength: nat := 256

  const LengthMAC: nat := 6
  const LengthIPv4: nat := 4
  const LengthIPv6: nat := 16

  const OffsetMACDst: nat := 0
  const OffsetMACSrc: nat := 6
  const OffsetEtherType: nat := 12
  const OffsetIPv4Src: nat := 26
  const OffsetIPv4Dst: nat := 30
  const OffsetIPv6Src: nat := 22
  const OffsetIPv6Dst: nat := 38
  /** Sender protocol address inside an ARP payload. */
  const OffsetARPIPv4: nat := 28

  const EtherTypeIPv4: uint16 := 0x0800
  const EtherTypeIPv6: uint16 := 0x86DD
  const EtherTypeARP: uint16 := 0x0806

  /** High nibble of an IPv4 multicast first octet. */
  const MulticastIPv4: byte := 0xE

  const BroadcastIPv4: seq<byte> := [0xFF, 0xFF, 0xFF, 0xFF]
  const BroadcastMAC: seq<byte> := [0xFF, 0xFF, 0xFF, 0xFF, 0xFF, 0xFF]

  /** Column widths of a report row: MAC, IPv4, IPv6. */
  const WidthMAC: nat := 18
  const WidthIPv4: nat := 16
  const WidthIPv6: nat := 39
  const RowWidth: nat := WidthMAC + WidthIPv4 + WidthIPv6

  const HeaderCSV: string := "MAC Address,IPv4 Address,IPv6 Address"

  /** The column titles of the console report. */
  const HeaderTitles: string := "MAC Address       IPv4 Address    IPv6 Address"

  /** The line of '=' under the column titles. */
  const HeaderRule: string := Repeat('=', 17) + " " + Repeat('=', 15) + " " + Repeat('=', 39)

  /** The console report header: titles, newline, rule. */
  const Header: string := HeaderTitles + "\n" + HeaderRule

  /** The line of '=' printed after the last row. */
  const Footer: string := Repeat('=', 73)

  /**
   * The frame layout is consistent: the Ethernet header fields are contiguous
   * and disjoint, the IPv4 and IPv6 address pairs are adjacent, the ARP sender
   * address lies inside the IPv4 pair's span, every field ends inside the
   * snapshot, and the three recognised ethertypes are distinct.
   */
  lemma FrameLayout()
    ensures OffsetMACDst + LengthMAC == OffsetMACSrc
    ensures OffsetMACSrc + LengthMAC == OffsetEtherType
    ensures OffsetIPv4Src + LengthIPv4 == OffsetIPv4Dst
    ensures OffsetIPv4Src < OffsetARPIPv4 && OffsetARPIPv4 + LengthIPv4 < OffsetIPv4Dst + LengthIPv4
    ensures OffsetIPv6Src + LengthIPv6 == OffsetIPv6Dst
    ensures OffsetEtherType + 2 <= OffsetIPv6Src <= OffsetIPv4Src
    ensures OffsetIPv6Dst + LengthIPv6 <= SnapLength
    ensures OffsetIPv4Dst + LengthIPv4 <= SnapLength
    ensures EtherTypeIPv4 != EtherTypeIPv6 && EtherTypeIPv4 != EtherTypeARP && EtherTypeIPv6 != EtherTypeARP
    ensures |BroadcastIPv4| == LengthIPv4 && |BroadcastMAC| == LengthMAC
    ensures forall i :: 0 <= i < |BroadcastMAC| ==> BroadcastMAC[i] == 0xFF
  {
  }

  /** The rule under the titles is as wide as a row and as the footer. */
  lemma HeaderRuleWidth()
    ensures |HeaderRule| == RowWidth == |Footer| == 73
    ensures Header[|HeaderTitles|] == '\n' && Header[|HeaderTitles| + 1..] == HeaderRule
  {
  }
}
