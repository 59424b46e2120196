/**
 * The frame decoder: a captured Ethernet frame is read at fixed offsets into
 * the source and destination MAC addresses, the ethertype and, depending on the
 * ethertype, an IPv4 pair (IPv4), an IPv4 sender address (ARP) or an IPv6 pair
 * (IPv6). Fields the ethertype does not carry keep their default: not set.
 */
module Packets {
  import opened Types
  import opened Addresses
  import Ipf

  datatype Packet = Packet(
    macSrc: MacAddress,
    macDst: MacAddress,
    etherType: uint16,
    ipv4Src: IPv4Address,
    ipv4Dst: IPv4Address,
    ipv6Src: IPv6Address,
    ipv6Dst: IPv6Address)
  {
    /** `ipv4()`: the frame is an IPv4 frame (an ARP frame is not, though it sets ipv4Src). */
    predicate IsIPv4() {
      etherType == Ipf.EtherTypeIPv4
    }

    /** `ipv6()`: the frame is an IPv6 frame. */
    predicate IsIPv6() {
      etherType == Ipf.EtherTypeIPv6
    }
  }

  /** The field values a Packet starts from before the frame is read: ethertype 0, no address set. */
  const Default: Packet := Packet(Unset, Unset, 0, Unset, Unset, Unset, Unset)

  /** The big-endian ethertype at offset 12. */
  function EtherTypeOf(frame: seq<byte>): (t: uint16)
    requires |frame| >= Ipf.OffsetEtherType + 2
    ensures t / 256 == frame[Ipf.OffsetEtherType] && t % 256 == frame[Ipf.OffsetEtherType + 1]
  {
    frame[Ipf.OffsetEtherType] as int * 256 + frame[Ipf.OffsetEtherType + 1] as int
  }

  /** One past the highest offset the decoder reads for a frame of this ethertype. */
  function Extent(etherType: uint16): nat
  {
    if etherType == Ipf.EtherTypeIPv4 then Ipf.OffsetIPv4Dst + Ipf.LengthIPv4
    else if etherType == Ipf.EtherTypeARP then Ipf.OffsetARPIPv4 + Ipf.LengthIPv4
    else if etherType == Ipf.EtherTypeIPv6 then Ipf.OffsetIPv6Dst + Ipf.LengthIPv6
    else Ipf.OffsetEtherType + 2
  }

  /**
   * The frame holds every byte the decoder reads. The decoder itself does not
   * check this: it indexes the capture buffer directly.
   */
  predicate Decodable(frame: seq<byte>) {
    |frame| >= Ipf.OffsetEtherType + 2 && |frame| >= Extent(EtherTypeOf(frame))
  }

  /**
   * Any frame of at least 54 bytes, the extent of the IPv6 fields, covers every
   * field of every ethertype. Nothing in the capture path guarantees such a
   * length: the captured length of a frame is never looked at.
   */
  lemma SnapshotIsDecodable(frame: seq<byte>)
    requires |frame| >= 54
    ensures Decodable(frame)
  {
  }

  /** The address at `offset` of length `length`, copied out of the frame. */
  function Field(frame: seq<byte>, offset: nat, length: nat): (a: Address)
    requires offset + length <= |frame|
    ensures |a.bytes| == length
  {
    Address(frame[offset..offset + length])
  }

  /**
   * What a decoded packet always satisfies: both MACs are six bytes, and the
   * IP fields that are set are exactly the ones the ethertype carries, at
   * their full lengths.
   */
  predicate WellFormed(p: Packet) {
    && |p.macSrc.bytes| == Ipf.LengthMAC
    && |p.macDst.bytes| == Ipf.LengthMAC
    && (if p.etherType == Ipf.EtherTypeIPv4 then
          |p.ipv4Src.bytes| == Ipf.LengthIPv4 && |p.ipv4Dst.bytes| == Ipf.LengthIPv4
          && p.ipv6Src.IsEmpty() && p.ipv6Dst.IsEmpty()
        else if p.etherType == Ipf.EtherTypeARP then
          |p.ipv4Src.bytes| == Ipf.LengthIPv4 && p.ipv4Dst.IsEmpty()
          && p.ipv6Src.IsEmpty() && p.ipv6Dst.IsEmpty()
        else if p.etherType == Ipf.EtherTypeIPv6 then
          p.ipv4Src.IsEmpty() && p.ipv4Dst.IsEmpty()
          && |p.ipv6Src.bytes| == Ipf.LengthIPv6 && |p.ipv6Dst.bytes| == Ipf.LengthIPv6
        else
          p.ipv4Src.IsEmpty() && p.ipv4Dst.IsEmpty() && p.ipv6Src.IsEmpty() && p.ipv6Dst.IsEmpty())
  }

  /**
   * `Packet::Packet(const uint8_t*)`: the MACs come from offsets 6 (source) and
   * 0 (destination), the ethertype from offset 12; IPv4 reads the addresses at
   * 26 and 30, ARP reads the sender protocol address at 28 into the IPv4 source
   * only, IPv6 reads the addresses at 22 and 38; every other field keeps its
   * default.
   */
  function Decode(frame: seq<byte>): (p: Packet)
    requires Decodable(frame)
    ensures WellFormed(p)
    ensures p.macSrc.bytes == frame[6..12] && p.macDst.bytes == frame[0..6]
    ensures p.etherType == frame[12] as int * 256 + frame[13] as int
    ensures p.ipv4Src.bytes == (if p.etherType == 0x0800 then frame[26..30] else if p.etherType == 0x0806 then frame[28..32] else [])
    ensures p.ipv4Dst.bytes == (if p.etherType == 0x0800 then frame[30..34] else [])
    ensures p.ipv6Src.bytes == (if p.etherType == 0x86DD then frame[22..38] else [])
    ensures p.ipv6Dst.bytes == (if p.etherType == 0x86DD then frame[38..54] else [])
  {
    var base := Default.(
      macSrc := Field(frame, Ipf.OffsetMACSrc, Ipf.LengthMAC),
      macDst := Field(frame, Ipf.OffsetMACDst, Ipf.LengthMAC),
      etherType := EtherTypeOf(frame));
    if base.etherType == Ipf.EtherTypeIPv4 then
      base.(ipv4Src := Field(frame, Ipf.OffsetIPv4Src, Ipf.LengthIPv4),
            ipv4Dst := Field(frame, Ipf.OffsetIPv4Dst, Ipf.LengthIPv4))
    else if base.etherType == Ipf.EtherTypeARP then
      base.(ipv4Src := Field(frame, Ipf.OffsetARPIPv4, Ipf.LengthIPv4))
    else if base.etherType == Ipf.EtherTypeIPv6 then
      base.(ipv6Src := Field(frame, Ipf.OffsetIPv6Src, Ipf.LengthIPv6),
            ipv6Dst := Field(frame, Ipf.OffsetIPv6Dst, Ipf.LengthIPv6))
    else
      base
  }

  /** No decoded packet carries both IPv4 and IPv6 addresses. */
  lemma NeverDualStack(frame: seq<byte>)
    requires Decodable(frame)
    ensures var p := Decode(frame);
      !((!p.ipv4Src.IsEmpty() || !p.ipv4Dst.IsEmpty()) && (!p.ipv6Src.IsEmpty() || !p.ipv6Dst.IsEmpty()))
  {
  }

  /**
   * `ipv4()` and `ipv6()` report the frame kind, not which fields are set:
   * `ipv4()` holds exactly when both IPv4 fields are set, and an ARP frame sets
   * the IPv4 source while `ipv4()` is false.
   */
  lemma KindPredicates(frame: seq<byte>)
    requires Decodable(frame)
    ensures var p := Decode(frame);
      && (p.IsIPv4() <==> !p.ipv4Dst.IsEmpty())
      && (p.IsIPv6() <==> !p.ipv6Src.IsEmpty())
      && (p.etherType == Ipf.EtherTypeARP ==> !p.IsIPv4() && !p.ipv4Src.IsEmpty())
  {
  }

  // ---------------------------------------------- a reference frame builder

  function Zeros(n: nat): (s: seq<byte>)
    ensures |s| == n
  {
    if n == 0 then [] else [0] + Zeros(n - 1)
  }

  /**
   * The shortest frame that carries the fields of a well-formed packet at the
   * offsets the Ethernet, IPv4, ARP and IPv6 headers put them, with zero bytes
   * everywhere else.
   */
  function Encode(p: Packet): (frame: seq<byte>)
    requires WellFormed(p)
    ensures |frame| == Extent(p.etherType)
  {
    var header := p.macDst.bytes + p.macSrc.bytes + [p.etherType / 256, p.etherType % 256];
    if p.IsIPv4() then header + Zeros(12) + p.ipv4Src.bytes + p.ipv4Dst.bytes
    else if p.etherType == Ipf.EtherTypeARP then header + Zeros(14) + p.ipv4Src.bytes
    else if p.IsIPv6() then header + Zeros(8) + p.ipv6Src.bytes + p.ipv6Dst.bytes
    else header
  }

  /** Decoding a frame built from a well-formed packet gives that packet back. */
  lemma DecodeEncode(p: Packet)
    requires WellFormed(p)
    ensures Decodable(Encode(p))
    ensures Decode(Encode(p)) == p
  {
    EncodeLayout(p);
    var q := Decode(Encode(p));
    assert q.macDst.bytes == p.macDst.bytes && q.macSrc.bytes == p.macSrc.bytes;
    assert q.ipv4Src.bytes == p.ipv4Src.bytes && q.ipv4Dst.bytes == p.ipv4Dst.bytes;
    assert q.ipv6Src.bytes == p.ipv6Src.bytes && q.ipv6Dst.bytes == p.ipv6Dst.bytes;
  }

  /** Where Encode puts each field: the offsets the decoder reads them from. */
  lemma EncodeLayout(p: Packet)
    requires WellFormed(p)
    ensures var f := Encode(p);
      && |f| >= Ipf.OffsetEtherType + 2
      && f[0..6] == p.macDst.bytes && f[6..12] == p.macSrc.bytes
      && f[12] as int * 256 + f[13] as int == p.etherType
      && (p.IsIPv4() ==> f[26..30] == p.ipv4Src.bytes && f[30..34] == p.ipv4Dst.bytes)
      && (p.etherType == Ipf.EtherTypeARP ==> f[28..32] == p.ipv4Src.bytes)
      && (p.IsIPv6() ==> f[22..38] == p.ipv6Src.bytes && f[38..54] == p.ipv6Dst.bytes)
  {
    var f := Encode(p);
    var header := p.macDst.bytes + p.macSrc.bytes + [p.etherType / 256, p.etherType % 256];
    assert |header| == 14 && f[..14] == header;
    assert f[0..6] == header[0..6] == p.macDst.bytes;
    assert f[6..12] == header[6..12] == p.macSrc.bytes;
    assert f[12] == p.etherType / 256 && f[13] == p.etherType % 256;
    if p.IsIPv4() {
      var pre := header + Zeros(12);
      assert |pre| == 26 && f == pre + p.ipv4Src.bytes + p.ipv4Dst.bytes;
      assert f[26..30] == p.ipv4Src.bytes && f[30..34] == p.ipv4Dst.bytes;
    } else if p.etherType == Ipf.EtherTypeARP {
      var pre := header + Zeros(14);
      assert |pre| == 28 && f == pre + p.ipv4Src.bytes;
      assert f[28..32] == p.ipv4Src.bytes;
    } else if p.IsIPv6() {
      var pre := header + Zeros(8);
      assert |pre| == 22 && f == pre + p.ipv6Src.bytes + p.ipv6Dst.bytes;
      assert f[22..38] == p.ipv6Src.bytes && f[38..54] == p.ipv6Dst.bytes;
    }
  }

  /** Sequences that agree on a prefix agree on every slice inside it. */
  lemma SliceOfPrefix(f: seq<byte>, g: seq<byte>, e: nat, i: nat, j: nat)
    requires e <= |f| && e <= |g| && f[..e] == g[..e]
    requires i <= j <= e
    ensures f[i..j] == g[i..j]
  {
    forall k | i <= k < j
      ensures f[k] == g[k]
    {
      assert f[k] == f[..e][k] && g[k] == g[..e][k];
    }
  }

  /**
   * The decoder reads nothing beyond the fields of its ethertype: frames that
   * agree up to that extent decode alike, whatever follows.
   */
  lemma DecodeReadsOnlyExtent(f: seq<byte>, g: seq<byte>)
    requires Decodable(f)
    requires var e := Extent(EtherTypeOf(f)); e <= |g| && f[..e] == g[..e]
    ensures Decodable(g) && Decode(f) == Decode(g)
  {
    var e := Extent(EtherTypeOf(f));
    SliceOfPrefix(f, g, e, 12, 14);
    assert f[12] == f[12..14][0] && f[13] == f[12..14][1];
    assert g[12] == g[12..14][0] && g[13] == g[12..14][1];
    SliceOfPrefix(f, g, e, 0, 6);
    SliceOfPrefix(f, g, e, 6, 12);
    var t := EtherTypeOf(f);
    if t == Ipf.EtherTypeIPv4 {
      SliceOfPrefix(f, g, e, 26, 30);
      SliceOfPrefix(f, g, e, 30, 34);
    } else if t == Ipf.EtherTypeARP {
      SliceOfPrefix(f, g, e, 28, 32);
    } else if t == Ipf.EtherTypeIPv6 {
      SliceOfPrefix(f, g, e, 22, 38);
      SliceOfPrefix(f, g, e, 38, 54);
    }
  }
}
