/**
 * The host table of `IPForensics`: every packet contributes its source host
 * and then its destination host; a MAC seen for the first time is added with
 * the addresses of that sighting, a MAC seen again only has its missing IPv4
 * or IPv6 address filled in. Afterwards hosts that fail a "fake" test, or
 * whose IPv4 address lies outside a given subnet, are removed, and the rest
 * are listed in ascending MAC order and summarised.
 *
 * The `std::set<Host>` ordered by MAC text is a map keyed by MAC bytes: for
 * six-byte MACs two hosts are equivalent under `operator<` exactly when their
 * MACs are equal (`Hosts.LessEquivalence`).
 */
module HostTable {
  import opened Types
  import opened Addresses
  import opened Hosts
  import Packets
  import Ipf

  type Table = map<seq<byte>, Host>

  /** Every host is stored under the bytes of its own MAC. */
  predicate Keyed(t: Table) {
    forall k :: k in t ==> t[k].mac.bytes == k
  }

  /** A keyed table of well-formed hosts, as extraction from decoded frames builds. */
  predicate Valid(t: Table) {
    Keyed(t) && forall k :: k in t ==> WellFormed(t[k])
  }

  // ------------------------------------------------------------ one sighting

  datatype Family = V4 | V6

  /** The address of one family held by a host. */
  function Slot(h: Host, f: Family): Address {
    if f == V4 then h.ipv4 else h.ipv6
  }

  /**
   * `update_host`: an address the host lacks is taken from the sighting, an
   * address it already has is kept; the MAC never changes.
   */
  function UpdateHost(h: Host, v4: IPv4Address, v6: IPv6Address): (r: Host)
    ensures r.mac == h.mac
    ensures !h.ipv4.IsEmpty() ==> r.ipv4 == h.ipv4
    ensures h.ipv4.IsEmpty() ==> r.ipv4 == v4
    ensures !h.ipv6.IsEmpty() ==> r.ipv6 == h.ipv6
    ensures h.ipv6.IsEmpty() ==> r.ipv6 == v6
  {
    var h1 := if h.ipv4.IsEmpty() && !v4.IsEmpty() then SetIPv4(h, v4) else h;
    if h1.ipv6.IsEmpty() && !v6.IsEmpty() then SetIPv6(h1, v6) else h1
  }

  /** Updating twice with the same sighting is updating once; a complete host is left alone. */
  lemma UpdateHostIdempotent(h: Host, v4: IPv4Address, v6: IPv6Address)
    ensures UpdateHost(UpdateHost(h, v4, v6), v4, v6) == UpdateHost(h, v4, v6)
    ensures !h.ipv4.IsEmpty() && !h.ipv6.IsEmpty() ==> UpdateHost(h, v4, v6) == h
  {
  }

  /**
   * `add_host`: `std::set::insert` of the host, which leaves the set as it is
   * when a host with the same MAC is already present.
   */
  function AddHost(t: Table, h: Host): (r: Table)
    ensures h.mac.bytes in t ==> r == t
    ensures h.mac.bytes !in t ==> h.mac.bytes in r && r[h.mac.bytes] == h && |r| == |t| + 1
    ensures forall k :: k in t ==> k in r && r[k] == t[k]
    ensures forall k :: k in r ==> k in t || k == h.mac.bytes
  {
    if h.mac.bytes in t then t else t[h.mac.bytes := h]
  }

  /**
   * One sighting of a host: the `find`, then `add_host` or `update_host`, that
   * the extraction loop runs for each packet's source and destination.
   */
  function Observe(t: Table, s: Host): (r: Table)
    ensures r.Keys == t.Keys + {s.mac.bytes}
    ensures |r| <= |t| + 1
    ensures forall k :: k in t && k != s.mac.bytes ==> r[k] == t[k]
  {
    var k := s.mac.bytes;
    if k in t then t[k := UpdateHost(t[k], s.ipv4, s.ipv6)] else AddHost(t, s)
  }

  /** A sighting keeps the table keyed, and keeps it valid when the sighting is well formed. */
  lemma ObservePreserves(t: Table, s: Host)
    ensures Keyed(t) ==> Keyed(Observe(t, s))
    ensures Valid(t) && WellFormed(s) ==> Valid(Observe(t, s))
  {
  }

  // ------------------------------------------------------- many sightings

  /** The source host a packet shows: its source MAC with its source addresses. */
  function Source(p: Packets.Packet): (h: Host)
    ensures Packets.WellFormed(p) ==> WellFormed(h)
  {
    Host(p.macSrc, p.ipv4Src, p.ipv6Src)
  }

  /** The destination host a packet shows. */
  function Destination(p: Packets.Packet): (h: Host)
    ensures Packets.WellFormed(p) ==> WellFormed(h)
  {
    Host(p.macDst, p.ipv4Dst, p.ipv6Dst)
  }

  /** Every packet is as the decoder produces it. */
  predicate AllDecoded(ps: seq<Packets.Packet>) {
    forall i :: 0 <= i < |ps| ==> Packets.WellFormed(ps[i])
  }

  /** Every host of the sequence is well formed. */
  predicate AllWellFormed(ss: seq<Host>) {
    forall i :: 0 <= i < |ss| ==> WellFormed(ss[i])
  }

  /** The sightings of a packet sequence in processing order: per packet, source then destination. */
  function Sightings(ps: seq<Packets.Packet>): (ss: seq<Host>)
    ensures |ss| == 2 * |ps|
  {
    if ps == [] then []
    else Sightings(ps[..|ps| - 1]) + [Source(ps[|ps| - 1]), Destination(ps[|ps| - 1])]
  }

  /** Packet `i` contributes sightings `2i` (its source) and `2i + 1` (its destination). */
  lemma {:induction false} SightingsAt(ps: seq<Packets.Packet>, i: nat)
    requires i < |ps|
    ensures Sightings(ps)[2 * i] == Source(ps[i]) && Sightings(ps)[2 * i + 1] == Destination(ps[i])
  {
    var n := |ps| - 1;
    if i < n {
      SightingsAt(ps[..n], i);
      assert ps[..n][i] == ps[i];
    }
  }

  /** Decoded packets show well-formed hosts. */
  lemma SightingsWellFormed(ps: seq<Packets.Packet>)
    requires AllDecoded(ps)
    ensures AllWellFormed(Sightings(ps))
  {
    forall j | 0 <= j < |Sightings(ps)|
      ensures WellFormed(Sightings(ps)[j])
    {
      SightingOrigin(ps, j);
    }
  }

  /** Every sighting is the source or the destination host of some packet. */
  lemma {:induction false} SightingOrigin(ps: seq<Packets.Packet>, j: int)
    requires 0 <= j < |Sightings(ps)|
    ensures exists i :: 0 <= i < |ps| && (Sightings(ps)[j] == Source(ps[i]) || Sightings(ps)[j] == Destination(ps[i]))
  {
    var n := |ps| - 1;
    if j < 2 * n {
      SightingOrigin(ps[..n], j);
      var i :| 0 <= i < n && (Sightings(ps[..n])[j] == Source(ps[..n][i]) || Sightings(ps[..n])[j] == Destination(ps[..n][i]));
      assert ps[..n][i] == ps[i];
    } else {
      assert Sightings(ps)[j] == Source(ps[n]) || Sightings(ps)[j] == Destination(ps[n]);
    }
  }

  /** The MACs of a sequence of sightings. */
  function Macs(ss: seq<Host>): set<seq<byte>> {
    set i | 0 <= i < |ss| :: ss[i].mac.bytes
  }

  /** The table after the sightings, in order, starting from `t`. */
  function Absorb(t: Table, ss: seq<Host>): Table
    decreases |ss|
  {
    if ss == [] then t
    else Observe(Absorb(t, ss[..|ss| - 1]), ss[|ss| - 1])
  }

  /** The sightings add their MACs to the table and nothing else, at most one host per sighting. */
  lemma {:induction false} AbsorbKeys(t: Table, ss: seq<Host>)
    ensures Absorb(t, ss).Keys == t.Keys + Macs(ss)
    ensures |Absorb(t, ss)| <= |t| + |ss|
    decreases |ss|
  {
    if ss != [] {
      MacsSnoc(ss);
      AbsorbKeys(t, ss[..|ss| - 1]);
    }
  }

  lemma MacsSnoc(ss: seq<Host>)
    requires ss != []
    ensures Macs(ss) == Macs(ss[..|ss| - 1]) + {ss[|ss| - 1].mac.bytes}
  {
    var init := ss[..|ss| - 1];
    assert forall i :: 0 <= i < |init| ==> init[i] == ss[i];
  }

  /**
   * The reference definition of what extraction records: the address of
   * family `f` of the first sighting of MAC `k` that has one, or unset if none does.
   */
  function FirstAddr(ss: seq<Host>, k: seq<byte>, f: Family): (a: Address)
    ensures AllWellFormed(ss) ==>
      a.IsEmpty() || |a.bytes| == (if f == V4 then Ipf.LengthIPv4 else Ipf.LengthIPv6)
  {
    if ss == [] then Unset
    else if ss[0].mac.bytes == k && !Slot(ss[0], f).IsEmpty() then Slot(ss[0], f)
    else FirstAddr(ss[1..], k, f)
  }

  /** FirstAddr is unset exactly when no sighting of `k` has an address of that family. */
  lemma {:induction false} FirstAddrUnset(ss: seq<Host>, k: seq<byte>, f: Family)
    ensures FirstAddr(ss, k, f).IsEmpty() <==>
      forall i :: 0 <= i < |ss| && ss[i].mac.bytes == k ==> Slot(ss[i], f).IsEmpty()
  {
    if ss != [] {
      FirstAddrUnset(ss[1..], k, f);
      assert forall i :: 1 <= i < |ss| ==> ss[i] == ss[1..][i - 1];
    }
  }

  /** FirstAddr is the address of the earliest sighting of `k` that has one. */
  lemma {:induction false} FirstAddrAt(ss: seq<Host>, k: seq<byte>, f: Family, i: nat)
    requires i < |ss| && ss[i].mac.bytes == k && !Slot(ss[i], f).IsEmpty()
    requires forall j :: 0 <= j < i && ss[j].mac.bytes == k ==> Slot(ss[j], f).IsEmpty()
    ensures FirstAddr(ss, k, f) == Slot(ss[i], f)
  {
    if i > 0 {
      assert forall j :: 0 <= j < i - 1 ==> ss[1..][j] == ss[j + 1];
      FirstAddrAt(ss[1..], k, f, i - 1);
    }
  }

  /** A later sighting only matters when the earlier ones left the address unset. */
  lemma {:induction false} FirstAddrSnoc(ss: seq<Host>, s: Host, k: seq<byte>, f: Family)
    ensures FirstAddr(ss + [s], k, f) ==
      if !FirstAddr(ss, k, f).IsEmpty() then FirstAddr(ss, k, f)
      else if s.mac.bytes == k then Slot(s, f)
      else Unset
  {
    if ss != [] {
      assert (ss + [s])[1..] == ss[1..] + [s];
      FirstAddrSnoc(ss[1..], s, k, f);
    }
  }

  /** The entry `t` already holds for `k`, as a sighting that comes before all others. */
  function Prior(t: Table, k: seq<byte>): seq<Host> {
    if k in t then [t[k]] else []
  }

  /** The host the sightings describe for MAC `k`: each address from its first sighting that has one. */
  function Extracted(ss: seq<Host>, k: seq<byte>): Host {
    Host(Address(k), FirstAddr(ss, k, V4), FirstAddr(ss, k, V6))
  }

  /** The host extraction records for MAC `k` when it starts from table `t`: the table's own entry counts as the earliest sighting. */
  function Expected(t: Table, ss: seq<Host>, k: seq<byte>): Host {
    Extracted(Prior(t, k) + ss, k)
  }

  /** The FirstAddr of a lone sighting of `k` is its own address. */
  lemma FirstAddrSingle(h: Host, f: Family)
    ensures FirstAddr([h], h.mac.bytes, f) == Slot(h, f)
  {
    assert [h][1..] == [];
  }

  /** No sighting of `k`, no address for `k`. */
  lemma {:induction false} FirstAddrUnseen(ss: seq<Host>, k: seq<byte>, f: Family)
    requires k !in Macs(ss)
    ensures FirstAddr(ss, k, f) == Unset
  {
    if ss != [] {
      assert ss[0].mac.bytes in Macs(ss);
      assert Macs(ss[1..]) <= Macs(ss) by {
        forall i | 0 <= i < |ss[1..]|
          ensures ss[1..][i].mac.bytes in Macs(ss)
        {
          assert ss[1..][i] == ss[i + 1];
        }
      }
      FirstAddrUnseen(ss[1..], k, f);
    }
  }

  /** One step of the characterisation: a sighting turns the expected entries for `init` into those for `init + [s]`. */
  lemma ObserveExpected(t: Table, init: seq<Host>, s: Host, before: Table, k: seq<byte>)
    requires before.Keys == t.Keys + Macs(init)
    requires k in before ==> before[k] == Expected(t, init, k)
    requires k in Observe(before, s)
    ensures Observe(before, s)[k] == Expected(t, init + [s], k)
  {
    var seen := Prior(t, k) + init;
    assert Prior(t, k) + (init + [s]) == seen + [s];
    FirstAddrSnoc(seen, s, k, V4);
    FirstAddrSnoc(seen, s, k, V6);
    if k !in before {
      assert seen == init;
      FirstAddrUnseen(init, k, V4);
      FirstAddrUnseen(init, k, V6);
    }
  }

  /**
   * What extraction computes: each entry is the host built from the first
   * address of each family sighted for its MAC, the table's own entry counting
   * as the earliest sighting (first observation wins).
   */
  lemma {:induction false} AbsorbSpec(t: Table, ss: seq<Host>)
    requires Keyed(t)
    ensures Keyed(Absorb(t, ss))
    ensures forall k :: k in Absorb(t, ss) ==> Absorb(t, ss)[k] == Expected(t, ss, k)
    decreases |ss|
  {
    var r := Absorb(t, ss);
    if ss == [] {
      forall k | k in r
        ensures r[k] == Expected(t, ss, k)
      {
        FirstAddrSingle(t[k], V4);
        FirstAddrSingle(t[k], V6);
        assert Prior(t, k) + ss == [t[k]];
      }
    } else {
      var init, s := ss[..|ss| - 1], ss[|ss| - 1];
      assert ss == init + [s];
      AbsorbSpec(t, init);
      AbsorbKeys(t, init);
      var before := Absorb(t, init);
      forall k | k in r
        ensures r[k] == Expected(t, ss, k)
      {
        ObserveExpected(t, init, s, before, k);
      }
    }
  }

  /**
   * First observation wins: when sighting `i` is the first sighting of its MAC
   * carrying an address of family `f`, the extracted host has that address.
   */
  lemma FirstObservationWins(ss: seq<Host>, i: nat, f: Family)
    requires i < |ss| && !Slot(ss[i], f).IsEmpty()
    requires forall j :: 0 <= j < i && ss[j].mac.bytes == ss[i].mac.bytes ==> Slot(ss[j], f).IsEmpty()
    ensures ss[i].mac.bytes in Absorb(map[], ss)
    ensures Slot(Absorb(map[], ss)[ss[i].mac.bytes], f) == Slot(ss[i], f)
  {
    var k := ss[i].mac.bytes;
    assert k in Macs(ss);
    AbsorbKeys(map[], ss);
    AbsorbFromEmpty(ss);
    FirstAddrAt(ss, k, f, i);
  }

  /** A sighting of `k` placed first decides the address when it has one. */
  lemma FirstAddrCons(h: Host, ss: seq<Host>, f: Family)
    ensures FirstAddr([h] + ss, h.mac.bytes, f) ==
      if !Slot(h, f).IsEmpty() then Slot(h, f) else FirstAddr(ss, h.mac.bytes, f)
  {
    assert ([h] + ss)[1..] == ss;
  }

  /**
   * Extraction never discards what the table knew: every host stays, keeps its
   * MAC, and keeps every address it already had.
   */
  lemma AbsorbMonotone(t: Table, ss: seq<Host>)
    requires Keyed(t)
    ensures forall k :: k in t ==> k in Absorb(t, ss) && Absorb(t, ss)[k].mac == t[k].mac
    ensures forall k, f :: k in t && !Slot(t[k], f).IsEmpty() ==> Slot(Absorb(t, ss)[k], f) == Slot(t[k], f)
  {
    AbsorbKeys(t, ss);
    AbsorbSpec(t, ss);
    forall k, f | k in t
      ensures Slot(Absorb(t, ss)[k], f) == (if Slot(t[k], f).IsEmpty() then FirstAddr(ss, k, f) else Slot(t[k], f))
    {
      assert Prior(t, k) + ss == [t[k]] + ss;
      FirstAddrCons(t[k], ss, f);
    }
  }

  /** The entry extraction builds from an empty table. */
  lemma AbsorbFromEmpty(ss: seq<Host>)
    ensures Keyed(Absorb(map[], ss))
    ensures forall k :: k in Absorb(map[], ss) ==> Absorb(map[], ss)[k] == Extracted(ss, k)
  {
    AbsorbSpec(map[], ss);
    forall k | k in Absorb(map[], ss)
      ensures Absorb(map[], ss)[k] == Extracted(ss, k)
    {
      assert Prior(map[], k) + ss == ss;
    }
  }

  /** Re-running the sightings leaves the entry of each MAC as the first run built it. */
  lemma AbsorbAgainAt(ss: seq<Host>, k: seq<byte>)
    requires k in Absorb(map[], ss)
    ensures k in Absorb(Absorb(map[], ss), ss) && Absorb(Absorb(map[], ss), ss)[k] == Absorb(map[], ss)[k]
  {
    var t1 := Absorb(map[], ss);
    AbsorbKeys(t1, ss);
    AbsorbFromEmpty(ss);
    AbsorbSpec(t1, ss);
    assert Prior(t1, k) + ss == [t1[k]] + ss;
    FirstAddrCons(t1[k], ss, V4);
    FirstAddrCons(t1[k], ss, V6);
  }

  /** Running the same sightings over the table they built changes nothing. */
  lemma AbsorbIdempotent(ss: seq<Host>)
    ensures Absorb(Absorb(map[], ss), ss) == Absorb(map[], ss)
  {
    var t1 := Absorb(map[], ss);
    var t2 := Absorb(t1, ss);
    AbsorbKeys(map[], ss);
    AbsorbKeys(t1, ss);
    assert t2.Keys == t1.Keys;
    forall k | k in t1
      ensures t2[k] == t1[k]
    {
      AbsorbAgainAt(ss, k);
    }
  }

  /** One more sighting is one more `Observe`. */
  lemma AbsorbSnoc(t: Table, ss: seq<Host>, s: Host)
    ensures Absorb(t, ss + [s]) == Observe(Absorb(t, ss), s)
  {
    assert (ss + [s])[..|ss|] == ss;
  }

  /** One more packet's sightings, in the order the loop takes them. */
  lemma SightingsSnoc(ps: seq<Packets.Packet>, i: nat)
    requires i < |ps|
    ensures Sightings(ps[..i + 1]) == Sightings(ps[..i]) + [Source(ps[i])] + [Destination(ps[i])]
  {
    assert ps[..i + 1][..i] == ps[..i];
  }

  /** Processing one more packet: its source, then its destination. */
  lemma AbsorbPacket(ps: seq<Packets.Packet>, i: nat)
    requires i < |ps|
    ensures Absorb(map[], Sightings(ps[..i + 1])) ==
      Observe(Observe(Absorb(map[], Sightings(ps[..i])), Source(ps[i])), Destination(ps[i]))
  {
    var prev := Sightings(ps[..i]);
    SightingsSnoc(ps, i);
    AbsorbSnoc(map[], prev + [Source(ps[i])], Destination(ps[i]));
    AbsorbSnoc(map[], prev, Source(ps[i]));
  }

  /**
   * The hosts extraction finds are exactly the source and destination MACs of
   * the packets, so there are at most two per packet.
   */
  lemma ExtractedMacs(ps: seq<Packets.Packet>)
    ensures forall k :: k in Absorb(map[], Sightings(ps)) <==>
      exists i :: 0 <= i < |ps| && (ps[i].macSrc.bytes == k || ps[i].macDst.bytes == k)
    ensures |Absorb(map[], Sightings(ps))| <= 2 * |ps|
  {
    AbsorbKeys(map[], Sightings(ps));
    forall i | 0 <= i < |ps| {
      PacketMacsSighted(ps, i);
    }
    SightedMacsFromPackets(ps);
  }

  lemma PacketMacsSighted(ps: seq<Packets.Packet>, i: nat)
    requires i < |ps|
    ensures ps[i].macSrc.bytes in Macs(Sightings(ps)) && ps[i].macDst.bytes in Macs(Sightings(ps))
  {
    var ss := Sightings(ps);
    SightingsAt(ps, i);
    assert ss[2 * i].mac.bytes in Macs(ss);
    assert ss[2 * i + 1].mac.bytes in Macs(ss);
  }

  lemma SightedMacsFromPackets(ps: seq<Packets.Packet>)
    ensures forall k :: k in Macs(Sightings(ps)) ==>
      exists i :: 0 <= i < |ps| && (ps[i].macSrc.bytes == k || ps[i].macDst.bytes == k)
  {
    forall j | 0 <= j < |Sightings(ps)| {
      SightingOrigin(ps, j);
    }
  }

  /**
   * The extraction loop of `load_hosts`: for each packet the source host and
   * then the destination host is added or updated, which is the fold of
   * `Observe` over the sightings; the table stays keyed and well formed.
   */
  method ExtractHosts(ps: seq<Packets.Packet>) returns (t: Table)
    requires AllDecoded(ps)
    ensures Valid(t)
    ensures t == Absorb(map[], Sightings(ps))
  {
    t := map[];
    var i := 0;
    while i < |ps|
      invariant 0 <= i <= |ps|
      invariant Valid(t)
      invariant t == Absorb(map[], Sightings(ps[..i]))
    {
      ExtractStep(ps, i, t);
      t := Observe(Observe(t, Source(ps[i])), Destination(ps[i]));
      i := i + 1;
    }
    assert ps[..|ps|] == ps;
  }

  /** One iteration of the extraction loop keeps the table valid and equal to the fold so far. */
  lemma ExtractStep(ps: seq<Packets.Packet>, i: nat, t: Table)
    requires i < |ps| && Packets.WellFormed(ps[i])
    requires Valid(t) && t == Absorb(map[], Sightings(ps[..i]))
    ensures Valid(Observe(Observe(t, Source(ps[i])), Destination(ps[i])))
    ensures Observe(Observe(t, Source(ps[i])), Destination(ps[i])) == Absorb(map[], Sightings(ps[..i + 1]))
  {
    AbsorbPacket(ps, i);
    ObservePreserves(t, Source(ps[i]));
    ObservePreserves(Observe(t, Source(ps[i])), Destination(ps[i]));
  }

  // ------------------------------------------------------------- cleaning

  /**
   * The three `fake()` tests, one per address kind; their definitions are not
   * part of this model, so they are parameters.
   */
  datatype FakeTests = FakeTests(mac: MacAddress -> bool, ipv4: IPv4Address -> bool, ipv6: IPv6Address -> bool)

  /** The network address and mask of the capture device. */
  datatype Subnet = Subnet(net: IPv4Address, mask: IPv4Address)

  /** A subnet the mask test can read: a mask of at least four bytes. */
  predicate Usable(subnet: Option<Subnet>) {
    subnet.Some? ==> |subnet.value.mask.bytes| >= Ipf.LengthIPv4
  }

  /**
   * The removal test of `clean_hosts`: some address of the host is fake, or a
   * subnet is given and the host has an IPv4 address outside it.
   */
  predicate Removable(h: Host, fake: FakeTests, subnet: Option<Subnet>)
    requires WellFormed(h) && Usable(subnet)
  {
    || fake.mac(h.mac) || fake.ipv4(h.ipv4) || fake.ipv6(h.ipv6)
    || (!h.ipv4.IsEmpty() && subnet.Some? && !Mask(h.ipv4, subnet.value.net, subnet.value.mask))
  }

  /** The table `clean_hosts` leaves: the hosts that are not removable, unchanged. */
  function Clean(t: Table, fake: FakeTests, subnet: Option<Subnet>): (r: Table)
    requires Valid(t) && Usable(subnet)
    ensures Valid(r)
    ensures forall k :: k in r <==> k in t && !Removable(t[k], fake, subnet)
    ensures forall k :: k in r ==> r[k] == t[k]
  {
    map k | k in t && !Removable(t[k], fake, subnet) :: t[k]
  }

  /**
   * `clean_hosts`: walks the table once, erasing each host whose address is
   * fake or whose IPv4 address fails the subnet mask.
   */
  method CleanHosts(t: Table, fake: FakeTests, subnet: Option<Subnet>) returns (r: Table)
    requires Valid(t) && Usable(subnet)
    ensures r.Keys <= t.Keys
    ensures forall k :: k in t ==> (k !in r <==> (
      || fake.mac(t[k].mac) || fake.ipv4(t[k].ipv4) || fake.ipv6(t[k].ipv6)
      || (subnet.Some? && !t[k].ipv4.IsEmpty() && !Mask(t[k].ipv4, subnet.value.net, subnet.value.mask))))
    ensures forall k :: k in r ==> r[k] == t[k]
    ensures r == Clean(t, fake, subnet)
  {
    r := t;
    var pending := t.Keys;
    while pending != {}
      invariant pending <= t.Keys
      invariant forall k :: k in r <==> k in t && (k in pending || !Removable(t[k], fake, subnet))
      invariant forall k :: k in r ==> r[k] == t[k]
      decreases |pending|
    {
      var k :| k in pending;
      var host := t[k];
      var remove := false;
      if fake.mac(host.mac) || fake.ipv4(host.ipv4) || fake.ipv6(host.ipv6) {
        remove := true;
      }
      if !host.ipv4.IsEmpty() && subnet.Some? {
        if !Mask(host.ipv4, subnet.value.net, subnet.value.mask) {
          remove := true;
        }
      }
      assert remove == Removable(host, fake, subnet);
      if remove {
        r := r - {k};
      }
      pending := pending - {k};
    }
    assert r.Keys == Clean(t, fake, subnet).Keys;
  }

  /** Cleaning a clean table removes nothing more. */
  lemma CleanIdempotent(t: Table, fake: FakeTests, subnet: Option<Subnet>)
    requires Valid(t) && Usable(subnet)
    ensures Clean(Clean(t, fake, subnet), fake, subnet) == Clean(t, fake, subnet)
  {
  }

  /**
   * Reading from a file passes no subnet: a host is then removed exactly when
   * one of its addresses is fake, and a host with no IPv4 address is never
   * removed by the subnet test.
   */
  lemma CleanSubnetOnlyJudgesIPv4(t: Table, fake: FakeTests, subnet: Option<Subnet>)
    requires Valid(t) && Usable(subnet)
    ensures forall k :: k in t && t[k].ipv4.IsEmpty() ==>
      (k in Clean(t, fake, subnet) <==> k in Clean(t, fake, None))
    ensures forall k :: k in t ==>
      (k !in Clean(t, fake, None) <==> fake.mac(t[k].mac) || fake.ipv4(t[k].ipv4) || fake.ipv6(t[k].ipv6))
  {
  }

  /**
   * With the all-ones mask and no fake addresses, a host with an IPv4 address
   * survives exactly when that address is the network address itself.
   */
  lemma CleanAllOnesMask(t: Table, net: IPv4Address)
    requires Valid(t)
    ensures var fake := FakeTests(_ => false, _ => false, _ => false);
      var r := Clean(t, fake, Some(Subnet(net, Address(Ipf.BroadcastIPv4))));
      forall k :: k in t && !t[k].ipv4.IsEmpty() ==> (k in r <==> t[k].ipv4 == net)
  {
    forall k | k in t && !t[k].ipv4.IsEmpty()
      ensures Mask(t[k].ipv4, net, Address(Ipf.BroadcastIPv4)) <==> t[k].ipv4 == net
    {
      MaskAllOnes(t[k].ipv4, net);
    }
  }

  /**
   * `load_hosts`: extraction followed by cleaning, with no subnet when reading
   * from a file and the device's subnet when capturing live. A MAC ends up in
   * the table exactly when some packet carries it and the host extraction
   * builds for it is not removable.
   */
  method LoadHosts(ps: seq<Packets.Packet>, fake: FakeTests, subnet: Option<Subnet>) returns (t: Table)
    requires AllDecoded(ps)
    requires Usable(subnet)
    ensures Valid(t)
    ensures (SightingsWellFormed(ps);
      forall k :: k in t <==>
        (exists i :: 0 <= i < |ps| && (ps[i].macSrc.bytes == k || ps[i].macDst.bytes == k))
        && !Removable(Extracted(Sightings(ps), k), fake, subnet))
    ensures forall k :: k in t ==> t[k] == Extracted(Sightings(ps), k)
  {
    var all := ExtractHosts(ps);
    ExtractedMacs(ps);
    SightingsWellFormed(ps);
    AbsorbFromEmpty(Sightings(ps));
    t := CleanHosts(all, fake, subnet);
  }

  // ------------------------------------------------------- listing, summary

  /** The least of a non-empty set of MACs in byte order, the one `std::set` iteration visits first. */
  method LeastKey(keys: set<seq<byte>>) returns (m: seq<byte>)
    requires keys != {}
    ensures m in keys
    ensures forall k :: k in keys && k != m ==> ByteCompare(m, k) < 0
  {
    m :| m in keys;
    var pool := keys - {m};
    while pool != {}
      invariant pool <= keys && m in keys && m !in pool
      invariant forall k :: k in keys - pool && k != m ==> ByteCompare(m, k) < 0
      decreases |pool|
    {
      var k :| k in pool;
      ByteCompareProperties(k, m);
      if ByteCompare(k, m) < 0 {
        forall j | j in keys - pool && j != m
          ensures ByteCompare(k, j) < 0
        {
          ByteCompareTransitive(k, m, j);
        }
        m := k;
      }
      pool := pool - {k};
    }
  }

  /** Hosts listed in ascending MAC byte order are listed in ascending `operator<` order. */
  lemma AscendingHosts(t: Table, ks: seq<seq<byte>>, hs: seq<Host>)
    requires Valid(t)
    requires |hs| == |ks| && forall i :: 0 <= i < |ks| ==> ks[i] in t && hs[i] == t[ks[i]]
    requires forall i, j :: 0 <= i < j < |ks| ==> ByteCompare(ks[i], ks[j]) < 0
    ensures forall i, j :: 0 <= i < j < |hs| ==> Less(hs[i], hs[j])
  {
    forall i, j | 0 <= i < j < |hs|
      ensures Less(hs[i], hs[j])
    {
      LessAscending(hs[i], hs[j]);
      assert hs[i].mac.bytes[..6] == ks[i] && hs[j].mac.bytes[..6] == ks[j];
    }
  }

  /**
   * The state of the listing loop: `ks` holds, in ascending byte order, the
   * MACs of `t` already listed, each below every MAC still in `rest`.
   */
  ghost predicate Listed(t: Table, ks: seq<seq<byte>>, rest: set<seq<byte>>) {
    && rest <= t.Keys
    && |ks| + |rest| == |t|
    && (forall k :: k in ks <==> k in t && k !in rest)
    && (forall i, j :: 0 <= i < j < |ks| ==> ByteCompare(ks[i], ks[j]) < 0)
    && (forall i, k :: 0 <= i < |ks| && k in rest ==> ByteCompare(ks[i], k) < 0)
  }

  /** Moving the least remaining MAC to the end of the listing keeps the loop state. */
  lemma ListedStep(t: Table, ks: seq<seq<byte>>, rest: set<seq<byte>>, m: seq<byte>)
    requires Listed(t, ks, rest)
    requires m in rest && forall k :: k in rest && k != m ==> ByteCompare(m, k) < 0
    ensures Listed(t, ks + [m], rest - {m})
  {
    var ks' := ks + [m];
    forall i, j | 0 <= i < j < |ks'|
      ensures ByteCompare(ks'[i], ks'[j]) < 0
    {
      if j < |ks| {
        assert ks'[i] == ks[i] && ks'[j] == ks[j];
      } else {
        assert ks'[i] == ks[i] && ks'[j] == m;
      }
    }
    forall i, k | 0 <= i < |ks'| && k in rest - {m}
      ensures ByteCompare(ks'[i], k) < 0
    {
      if i < |ks| {
        assert ks'[i] == ks[i];
      }
    }
  }

  /**
   * The hosts of the table in the order the report lists them: ascending
   * under `operator<`, each host once.
   */
  method Listing(t: Table) returns (hs: seq<Host>)
    requires Valid(t)
    ensures |hs| == |t|
    ensures forall i :: 0 <= i < |hs| ==> hs[i].mac.bytes in t && t[hs[i].mac.bytes] == hs[i]
    ensures forall k :: k in t ==> t[k] in hs
    ensures forall i, j :: 0 <= i < j < |hs| ==> Less(hs[i], hs[j])
  {
    var ks: seq<seq<byte>> := [];
    var rest := t.Keys;
    while rest != {}
      invariant Listed(t, ks, rest)
      decreases |rest|
    {
      var m := LeastKey(rest);
      ListedStep(t, ks, rest, m);
      ks := ks + [m];
      rest := rest - {m};
    }
    hs := seq(|ks|, i requires 0 <= i < |ks| => t[ks[i]]);
    ListedHosts(t, ks, hs);
  }

  /** A complete listing of MACs gives the complete, ascending listing of hosts. */
  lemma ListedHosts(t: Table, ks: seq<seq<byte>>, hs: seq<Host>)
    requires Valid(t) && Listed(t, ks, {})
    requires |hs| == |ks| && forall i :: 0 <= i < |ks| ==> hs[i] == t[ks[i]]
    ensures |hs| == |t|
    ensures forall i :: 0 <= i < |hs| ==> hs[i].mac.bytes in t && t[hs[i].mac.bytes] == hs[i]
    ensures forall k :: k in t ==> t[k] in hs
    ensures forall i, j :: 0 <= i < j < |hs| ==> Less(hs[i], hs[j])
  {
    AscendingHosts(t, ks, hs);
    forall k | k in t
      ensures t[k] in hs
    {
      var i :| 0 <= i < |ks| && ks[i] == k;
      assert hs[i] == t[k];
    }
  }

  /** How many IP families a host has addresses for. */
  datatype Stack = NoAddress | IPv4Only | IPv6Only | DualStack

  function StackOf(h: Host): Stack {
    match (h.ipv4.IsEmpty(), h.ipv6.IsEmpty())
    case (true, true) => NoAddress
    case (false, true) => IPv4Only
    case (true, false) => IPv6Only
    case (false, false) => DualStack
  }

  /** The number of hosts of each kind. */
  function Count(hs: seq<Host>, kind: Stack): nat
  {
    if hs == [] then 0
    else Count(hs[..|hs| - 1], kind) + (if StackOf(hs[|hs| - 1]) == kind then 1 else 0)
  }

  /** Every host is of exactly one kind, so the four counts add up to the number of hosts. */
  lemma {:induction false} CountsPartition(hs: seq<Host>)
    ensures Count(hs, NoAddress) + Count(hs, IPv4Only) + Count(hs, IPv6Only) + Count(hs, DualStack) == |hs|
  {
    if hs != [] {
      CountsPartition(hs[..|hs| - 1]);
    }
  }

  datatype Summary = Summary(hosts: nat, ipv4Only: nat, ipv6Only: nat, dualStack: nat)

  /**
   * The counters of `results`: IPv4-only, IPv6-only and dual-stack hosts.
   * The three tests are disjoint, so the counts never exceed the number of hosts.
   */
  method Summarize(hs: seq<Host>) returns (s: Summary)
    ensures s.hosts == |hs|
    ensures s.ipv4Only == Count(hs, IPv4Only) && s.ipv6Only == Count(hs, IPv6Only) && s.dualStack == Count(hs, DualStack)
    ensures s.ipv4Only + s.ipv6Only + s.dualStack == |hs| - Count(hs, NoAddress)
  {
    var v4, v6, dual := 0, 0, 0;
    var i := 0;
    while i < |hs|
      invariant 0 <= i <= |hs|
      invariant v4 == Count(hs[..i], IPv4Only) && v6 == Count(hs[..i], IPv6Only) && dual == Count(hs[..i], DualStack)
    {
      var h := hs[i];
      assert hs[..i + 1][..i] == hs[..i];
      if !h.ipv4.IsEmpty() && h.ipv6.IsEmpty() { v4 := v4 + 1; }
      if !h.ipv6.IsEmpty() && h.ipv4.IsEmpty() { v6 := v6 + 1; }
      if !h.ipv4.IsEmpty() && !h.ipv6.IsEmpty() { dual := dual + 1; }
      i := i + 1;
    }
    assert hs[..|hs|] == hs;
    CountsPartition(hs);
    s := Summary(|hs|, v4, v6, dual);
  }
}
