/**
 * A host seen on the network: its MAC address and the first IPv4 and IPv6
 * addresses observed for it. Hosts are ordered by the text of their MAC and
 * print as one fixed-width report row.
 */
module Hosts {
  import opened Types
  import opened Text
  import opened Addresses
  import Ipf

  datatype Host = Host(mac: MacAddress, ipv4: IPv4Address, ipv6: IPv6Address)

  /** The MAC of the host is either unset or long enough to print. */
  predicate MacPrintable(h: Host) {
    h.mac.IsEmpty() || |h.mac.bytes| >= Ipf.LengthMAC
  }

  /** Every address of the host is either unset or long enough to print. */
  predicate Printable(h: Host) {
    && MacPrintable(h)
    && (h.ipv4.IsEmpty() || |h.ipv4.bytes| >= Ipf.LengthIPv4)
    && (h.ipv6.IsEmpty() || |h.ipv6.bytes| >= Ipf.LengthIPv6)
  }

  /** The shape of every host built from decoded frames: a six-byte MAC, IP addresses unset or at full length. */
  predicate WellFormed(h: Host) {
    && |h.mac.bytes| == Ipf.LengthMAC
    && (h.ipv4.IsEmpty() || |h.ipv4.bytes| == Ipf.LengthIPv4)
    && (h.ipv6.IsEmpty() || |h.ipv6.bytes| == Ipf.LengthIPv6)
  }

  /** `Host(mac)`: a host known only by its MAC, with no IP address yet. */
  function FromMac(mac: MacAddress): (h: Host)
    ensures h.mac == mac && h.ipv4.IsEmpty() && h.ipv6.IsEmpty()
    ensures |mac.bytes| == Ipf.LengthMAC ==> WellFormed(h)
  {
    Host(mac, Unset, Unset)
  }

  /** `set_ipv4`: replaces the IPv4 address and nothing else. */
  function SetIPv4(h: Host, v4: IPv4Address): (r: Host)
    ensures r.ipv4 == v4 && r.mac == h.mac && r.ipv6 == h.ipv6
    ensures WellFormed(h) && (v4.IsEmpty() || |v4.bytes| == Ipf.LengthIPv4) ==> WellFormed(r)
  {
    h.(ipv4 := v4)
  }

  /** `set_ipv6`: replaces the IPv6 address and nothing else. */
  function SetIPv6(h: Host, v6: IPv6Address): (r: Host)
    ensures r.ipv6 == v6 && r.mac == h.mac && r.ipv4 == h.ipv4
    ensures WellFormed(h) && (v6.IsEmpty() || |v6.bytes| == Ipf.LengthIPv6) ==> WellFormed(r)
  {
    h.(ipv6 := v6)
  }

  // ---------------------------------------------------------------- ordering

  /**
   * `operator<`: `l` comes before `r` when `r`'s MAC text compares greater
   * than `l`'s, so hosts are kept in ascending MAC text order.
   */
  predicate Less(l: Host, r: Host)
    requires MacPrintable(l) && MacPrintable(r)
  {
    Compare(MacStr(r.mac), MacStr(l.mac)) > 0
  }

  /** The order is ascending: `l` comes first exactly when its MAC text sorts first, i.e. its MAC bytes do. */
  lemma LessAscending(l: Host, r: Host)
    requires |l.mac.bytes| >= Ipf.LengthMAC && |r.mac.bytes| >= Ipf.LengthMAC
    ensures Less(l, r) <==> Compare(MacStr(l.mac), MacStr(r.mac)) < 0
    ensures Less(l, r) <==> ByteCompare(l.mac.bytes[..6], r.mac.bytes[..6]) < 0
  {
    CompareProperties(MacStr(l.mac), MacStr(r.mac));
    MacStrOrder(l.mac, r.mac);
  }

  /** `operator<` is a strict order: irreflexive, asymmetric and transitive. */
  lemma LessStrictOrder(a: Host, b: Host, c: Host)
    requires MacPrintable(a) && MacPrintable(b) && MacPrintable(c)
    ensures !Less(a, a)
    ensures Less(a, b) ==> !Less(b, a)
    ensures Less(a, b) && Less(b, c) ==> Less(a, c)
  {
    CompareProperties(MacStr(a.mac), MacStr(a.mac));
    CompareProperties(MacStr(a.mac), MacStr(b.mac));
    CompareProperties(MacStr(b.mac), MacStr(c.mac));
    CompareProperties(MacStr(a.mac), MacStr(c.mac));
    if Less(a, b) && Less(b, c) {
      CompareTransitive(MacStr(a.mac), MacStr(b.mac), MacStr(c.mac));
    }
  }

  /**
   * Two hosts are equivalent under `operator<` (neither comes first) exactly
   * when their MAC texts are equal, and for six-byte MACs exactly when the
   * MACs are equal: a set ordered this way holds one host per MAC.
   */
  lemma LessEquivalence(a: Host, b: Host)
    requires MacPrintable(a) && MacPrintable(b)
    ensures !Less(a, b) && !Less(b, a) <==> MacStr(a.mac) == MacStr(b.mac)
    ensures |a.mac.bytes| == |b.mac.bytes| == Ipf.LengthMAC ==>
      (!Less(a, b) && !Less(b, a) <==> a.mac == b.mac)
  {
    CompareProperties(MacStr(a.mac), MacStr(b.mac));
    if |a.mac.bytes| == |b.mac.bytes| == Ipf.LengthMAC {
      MacStrInjective(a.mac, b.mac);
    }
  }

  // ------------------------------------------------------------- report row

  /**
   * `operator<<`: the MAC, IPv4 and IPv6 text, each left-aligned and padded
   * with spaces to its column width (18, 16 and 39).
   */
  function Row(h: Host): (r: string)
    requires Printable(h)
    ensures |r| == Ipf.RowWidth == 73
    ensures r[Ipf.WidthMAC - 1] == ' ' && r[Ipf.WidthMAC + Ipf.WidthIPv4 - 1] == ' '
  {
    PadRight(MacStr(h.mac), Ipf.WidthMAC)
      + PadRight(IPv4Str(h.ipv4), Ipf.WidthIPv4)
      + PadRight(IPv6Str(h.ipv6), Ipf.WidthIPv6)
  }

  /** Each column of a row, with its padding trimmed, is the address text it was printed from. */
  lemma RowColumns(h: Host)
    requires Printable(h)
    ensures TrimRight(Row(h)[..18]) == MacStr(h.mac)
    ensures TrimRight(Row(h)[18..34]) == IPv4Str(h.ipv4)
    ensures TrimRight(Row(h)[34..]) == IPv6Str(h.ipv6)
  {
    var ms, v4s, v6s := MacStr(h.mac), IPv4Str(h.ipv4), IPv6Str(h.ipv6);
    StrEndsInDigit(h.mac, h.ipv4, h.ipv6);
    TrimDigitColumn(ms, Ipf.WidthMAC);
    TrimDigitColumn(v4s, Ipf.WidthIPv4);
    TrimDigitColumn(v6s, Ipf.WidthIPv6);
    RowSlices(PadRight(ms, Ipf.WidthMAC), PadRight(v4s, Ipf.WidthIPv4), PadRight(v6s, Ipf.WidthIPv6));
  }

  lemma TrimDigitColumn(s: string, width: nat)
    requires EndsInDigit(s)
    ensures TrimRight(PadRight(s, width)) == s
  {
    TrimPadded(s, width);
  }

  lemma RowSlices(m: string, v4: string, v6: string)
    requires |m| == 18 && |v4| == 16
    ensures (m + v4 + v6)[..18] == m
    ensures (m + v4 + v6)[18..34] == v4
    ensures (m + v4 + v6)[34..] == v6
  {
    var r := m + v4 + v6;
    assert r[..18] == m;
    assert r[18..34] == v4;
    assert r[34..] == v6;
  }

  /** Distinct well-formed hosts print distinct rows: a row determines its host. */
  lemma RowInjective(h: Host, g: Host)
    requires WellFormed(h) && WellFormed(g)
    ensures Row(h) == Row(g) <==> h == g
  {
    if Row(h) == Row(g) {
      RowColumns(h);
      RowColumns(g);
      MacStrInjective(h.mac, g.mac);
      if !h.ipv4.IsEmpty() && !g.ipv4.IsEmpty() {
        IPv4StrInjective(h.ipv4, g.ipv4);
      }
      if !h.ipv6.IsEmpty() && !g.ipv6.IsEmpty() {
        IPv6StrInjective(h.ipv6, g.ipv6);
      }
      UnsetIsEmpty(h.ipv4);
      UnsetIsEmpty(g.ipv4);
      UnsetIsEmpty(h.ipv6);
      UnsetIsEmpty(g.ipv6);
    }
  }
}
