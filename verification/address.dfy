/**
 * Network addresses: a MAC, IPv4 or IPv6 address is a byte sequence, and the
 * empty sequence means the address has not been set. The three kinds share
 * the representation and equality and differ only in how they are printed.
 */
module Addresses {
  import opened Types
  import opened Text
  import Ipf

  datatype Address = Address(bytes: seq<byte>) {
    /** `empty()`: the address has not been set. */
    predicate IsEmpty() {
      |bytes| == 0
    }
  }

  type MacAddress = Address
  type IPv4Address = Address
  type IPv6Address = Address

  /** What the default constructor of every address kind produces. */
  const Unset: Address := Address([])

  lemma UnsetIsEmpty(a: Address)
    ensures Unset.IsEmpty()
    ensures a.IsEmpty() <==> a == Unset
  {
  }

  /** `operator==`: a size mismatch is unequal, otherwise every byte must match. */
  method Equals(a: Address, b: Address) returns (r: bool)
    ensures r <==> |a.bytes| == |b.bytes| && forall i :: 0 <= i < |a.bytes| ==> a.bytes[i] == b.bytes[i]
    ensures r <==> a == b
  {
    if |a.bytes| != |b.bytes| {
      return false;
    }
    var i := 0;
    while i < |a.bytes|
      invariant 0 <= i <= |a.bytes|
      invariant forall j :: 0 <= j < i ==> a.bytes[j] == b.bytes[j]
    {
      if a.bytes[i] != b.bytes[i] {
        return false;
      }
      i := i + 1;
    }
    assert a.bytes == b.bytes;
    return true;
  }

  /** `operator!=`: the negation of `operator==`. */
  method NotEquals(a: Address, b: Address) returns (r: bool)
    ensures r <==> a != b
  {
    var eq := Equals(a, b);
    r := !eq;
  }

  // ---------------------------------------------------------------- MAC text

  /** One MAC byte as two lower-case hex digits, high nibble first. */
  function MacOctet(b: byte): (s: string)
    ensures |s| == 2 && AllDigits(s)
  {
    [DigitChar(b / 16), DigitChar(b % 16)]
  }

  /**
   * The pair is what `std::hex << std::setw(2) << std::setfill('0')` prints:
   * the unpadded hex numeral of the byte, padded on the left with '0' to width 2.
   */
  lemma MacOctetIsPadded(b: byte)
    ensures MacOctet(b) == PadLeft(Digits(b, 16), 2, '0')
  {
    if b < 16 {
      DigitsSmall(b, 16);
      assert DigitChar(0) == '0';
    } else {
      DigitsSmall(b / 16, 16);
    }
  }

  function MacOctets(bs: seq<byte>): (parts: seq<string>)
    ensures |parts| == |bs|
    ensures forall i :: 0 <= i < |bs| ==> parts[i] == MacOctet(bs[i])
  {
    seq(|bs|, i requires 0 <= i < |bs| => MacOctet(bs[i]))
  }

  /**
   * `MACAddress::str`: the first six bytes as two-digit lower-case hex pairs
   * joined by ':', or "" when the address is not set. A set address shorter than
   * six bytes would be read out of bounds, so it is excluded.
   */
  function MacStr(a: MacAddress): (s: string)
    requires a.IsEmpty() || |a.bytes| >= Ipf.LengthMAC
    ensures a.IsEmpty() <==> s == ""
    ensures !a.IsEmpty() ==> |s| == 17
  {
    if a.IsEmpty() then ""
    else
      var parts := MacOctets(a.bytes[..Ipf.LengthMAC]);
      MacOctetsWidth(a.bytes[..Ipf.LengthMAC]);
      JoinFixedLength(parts, ':', 2);
      Join(parts, ':')
  }

  lemma MacOctetsWidth(bs: seq<byte>)
    ensures forall i :: 0 <= i < |bs| ==> |MacOctets(bs)[i]| == 2 && AllDigits(MacOctets(bs)[i])
  {
  }

  /** Every byte of a set MAC appears as its hex pair at column 3k, with ':' between pairs. */
  lemma MacStrLayout(a: MacAddress, k: nat)
    requires |a.bytes| >= Ipf.LengthMAC && k < Ipf.LengthMAC
    ensures MacStr(a)[3 * k..3 * k + 2] == [DigitChar(a.bytes[k] / 16), DigitChar(a.bytes[k] % 16)]
    ensures k < 5 ==> MacStr(a)[3 * k + 2] == ':'
  {
    var parts := MacOctets(a.bytes[..Ipf.LengthMAC]);
    MacOctetsWidth(a.bytes[..Ipf.LengthMAC]);
    JoinFixedWidth(parts, ':', 2, 3, k);
  }

  /** Two six-byte MACs print the same exactly when they are equal. */
  lemma MacStrInjective(a: MacAddress, b: MacAddress)
    requires |a.bytes| == |b.bytes| == Ipf.LengthMAC
    ensures MacStr(a) == MacStr(b) <==> a == b
  {
    if MacStr(a) == MacStr(b) {
      var ps, qs := MacOctets(a.bytes[..6]), MacOctets(b.bytes[..6]);
      MacOctetsWidth(a.bytes[..6]);
      MacOctetsWidth(b.bytes[..6]);
      NoSeparatorInDigits(ps, ':');
      NoSeparatorInDigits(qs, ':');
      JoinInjective(ps, qs, ':');
      forall i | 0 <= i < 6
        ensures a.bytes[i] == b.bytes[i]
      {
        assert ps[i] == qs[i];
        MacOctetInjective(a.bytes[i], b.bytes[i]);
      }
      assert a.bytes == b.bytes;
    }
  }

  lemma NoSeparatorInDigits(parts: seq<string>, sep: char)
    requires forall i :: 0 <= i < |parts| ==> AllDigits(parts[i])
    requires !IsDigitChar(sep)
    ensures forall i :: 0 <= i < |parts| ==> sep !in parts[i]
  {
  }

  /** Two-digit hex pairs order as the bytes they print. */
  lemma MacOctetCompare(x: byte, y: byte)
    ensures Compare(MacOctet(x), MacOctet(y)) == (if x < y then -1 else if x > y then 1 else 0)
  {
    CompareTwo(MacOctet(x), MacOctet(y));
    DigitCharInjective(x / 16, y / 16);
    DigitCharInjective(x % 16, y % 16);
    HighLowOrder(x, y);
  }

  lemma MacOctetInjective(x: byte, y: byte)
    ensures MacOctet(x) == MacOctet(y) ==> x == y
  {
    MacOctetCompare(x, y);
    CompareProperties(MacOctet(x), MacOctet(y));
  }

  /** A byte orders by its high nibble first, then its low nibble. */
  lemma HighLowOrder(x: byte, y: byte)
    ensures x < y <==> x / 16 < y / 16 || (x / 16 == y / 16 && x % 16 < y % 16)
    ensures x == y <==> x / 16 == y / 16 && x % 16 == y % 16
  {
    DivMod(x, 16);
    DivMod(y, 16);
  }

  lemma CompareTwo(p: string, q: string)
    requires |p| == |q| == 2
    ensures Compare(p, q) ==
      if p[0] < q[0] then -1 else if p[0] > q[0] then 1
      else if p[1] < q[1] then -1 else if p[1] > q[1] then 1 else 0
  {
    if p[0] == q[0] {
      var p1, q1 := p[1..], q[1..];
      assert Compare(p, q) == Compare(p1, q1);
      assert p1[1..] == [] && q1[1..] == [];
      assert Compare(p1[1..], q1[1..]) == 0;
    }
  }

  /** Lexicographic comparison of byte sequences, reduced to its sign. */
  function ByteCompare(xs: seq<byte>, ys: seq<byte>): int
  {
    if xs == [] then (if ys == [] then 0 else -1)
    else if ys == [] then 1
    else if xs[0] < ys[0] then -1
    else if xs[0] > ys[0] then 1
    else ByteCompare(xs[1..], ys[1..])
  }

  /** ByteCompare is a sign, zero exactly on equal sequences, and antisymmetric. */
  lemma {:induction false} ByteCompareProperties(xs: seq<byte>, ys: seq<byte>)
    ensures -1 <= ByteCompare(xs, ys) <= 1
    ensures ByteCompare(xs, ys) == 0 <==> xs == ys
    ensures ByteCompare(ys, xs) == -ByteCompare(xs, ys)
  {
    if xs != [] && ys != [] && xs[0] == ys[0] {
      ByteCompareProperties(xs[1..], ys[1..]);
      if xs[1..] == ys[1..] {
        assert xs == [xs[0]] + xs[1..] && ys == [ys[0]] + ys[1..];
      }
    }
  }

  lemma {:induction false} ByteCompareTransitive(xs: seq<byte>, ys: seq<byte>, zs: seq<byte>)
    requires ByteCompare(xs, ys) < 0 && ByteCompare(ys, zs) < 0
    ensures ByteCompare(xs, zs) < 0
  {
    if xs != [] && ys != [] && zs != [] && xs[0] == ys[0] == zs[0] {
      ByteCompareTransitive(xs[1..], ys[1..], zs[1..]);
    }
  }

  /** The text of joined hex pairs orders exactly as the bytes do. */
  lemma {:induction false} MacOctetsCompare(xs: seq<byte>, ys: seq<byte>)
    requires |xs| == |ys| >= 1
    ensures Compare(Join(MacOctets(xs), ':'), Join(MacOctets(ys), ':')) == ByteCompare(xs, ys)
  {
    var ps, qs := MacOctets(xs), MacOctets(ys);
    if |xs| > 1 {
      MacOctetsCons(xs);
      MacOctetsCons(ys);
      var j, j' := Join(ps[1..], ':'), Join(qs[1..], ':');
      MacOctetsCompare(xs[1..], ys[1..]);
      CompareConcat([':'], j, [':'], j');
      CompareFirstOctet(xs, ys, [':'] + j, [':'] + j');
    } else {
      CompareFirstOctet(xs, ys, [], []);
      assert MacOctet(xs[0]) + [] == Join(ps, ':');
      assert MacOctet(ys[0]) + [] == Join(qs, ':');
      assert xs[1..] == [] && ys[1..] == [];
    }
  }

  lemma MacOctetsCons(xs: seq<byte>)
    requires |xs| > 1
    ensures MacOctets(xs)[1..] == MacOctets(xs[1..])
    ensures Join(MacOctets(xs), ':') == MacOctet(xs[0]) + ([':'] + Join(MacOctets(xs[1..]), ':'))
  {
    assert MacOctets(xs)[1..] == MacOctets(xs[1..]);
  }

  /** The first pair decides unless the first bytes are equal. */
  lemma CompareFirstOctet(xs: seq<byte>, ys: seq<byte>, s: string, t: string)
    requires |xs| == |ys| >= 1
    ensures Compare(MacOctet(xs[0]) + s, MacOctet(ys[0]) + t) ==
      if xs[0] != ys[0] then ByteCompare(xs, ys) else Compare(s, t)
  {
    MacOctetCompare(xs[0], ys[0]);
    MacOctetInjective(xs[0], ys[0]);
    CompareConcat(MacOctet(xs[0]), s, MacOctet(ys[0]), t);
  }

  /**
   * Because MAC text is fixed width, comparing two MAC strings compares the
   * first six bytes lexicographically.
   */
  lemma MacStrOrder(a: MacAddress, b: MacAddress)
    requires |a.bytes| >= Ipf.LengthMAC && |b.bytes| >= Ipf.LengthMAC
    ensures Compare(MacStr(a), MacStr(b)) == ByteCompare(a.bytes[..6], b.bytes[..6])
  {
    MacOctetsCompare(a.bytes[..6], b.bytes[..6]);
  }

  // --------------------------------------------------------------- IPv4 text

  function DecOctets(bs: seq<byte>): (parts: seq<string>)
    ensures |parts| == |bs|
    ensures forall i :: 0 <= i < |bs| ==> parts[i] == Digits(bs[i], 10)
  {
    seq(|bs|, i requires 0 <= i < |bs| => Digits(bs[i], 10))
  }

  /**
   * `IPv4Address::str`: the first four bytes as unpadded decimal octets joined
   * by '.', or "" when the address is not set.
   */
  function IPv4Str(a: IPv4Address): (s: string)
    requires a.IsEmpty() || |a.bytes| >= Ipf.LengthIPv4
    ensures a.IsEmpty() <==> s == ""
    ensures !a.IsEmpty() ==> 7 <= |s| <= 15
  {
    if a.IsEmpty() then ""
    else
      var parts := DecOctets(a.bytes[..Ipf.LengthIPv4]);
      DecOctetsWidth(a.bytes[..Ipf.LengthIPv4]);
      JoinLength(parts, '.');
      TotalLengthBounds(parts, 1, 3);
      Join(parts, '.')
  }

  lemma DecOctetsWidth(bs: seq<byte>)
    ensures forall i :: 0 <= i < |bs| ==> 1 <= |DecOctets(bs)[i]| <= 3 && AllDigits(DecOctets(bs)[i])
  {
    var parts := DecOctets(bs);
    assert Pow(10, 3) == 1000 by {
      assert Pow(10, 1) == 10;
      assert Pow(10, 2) == 100;
    }
    forall i | 0 <= i < |parts|
      ensures |parts[i]| <= 3
    {
      DigitsLength(bs[i], 10, 3);
    }
  }

  /** Two four-byte IPv4 addresses print the same exactly when they are equal. */
  lemma IPv4StrInjective(a: IPv4Address, b: IPv4Address)
    requires |a.bytes| == |b.bytes| == Ipf.LengthIPv4
    ensures IPv4Str(a) == IPv4Str(b) <==> a == b
  {
    if IPv4Str(a) == IPv4Str(b) {
      var ps, qs := DecOctets(a.bytes[..4]), DecOctets(b.bytes[..4]);
      DecOctetsWidth(a.bytes[..4]);
      DecOctetsWidth(b.bytes[..4]);
      NoSeparatorInDigits(ps, '.');
      NoSeparatorInDigits(qs, '.');
      JoinInjective(ps, qs, '.');
      forall i | 0 <= i < 4
        ensures a.bytes[i] == b.bytes[i]
      {
        assert ps[i] == qs[i];
        DigitsInjective(a.bytes[i], b.bytes[i], 10);
      }
      assert a.bytes == b.bytes;
    }
  }

  /**
   * Reading a printed IPv4 address back: split at '.', it has exactly four
   * fields, and field k is the unpadded decimal numeral of byte k.
   */
  lemma IPv4StrFields(a: IPv4Address)
    requires |a.bytes| >= Ipf.LengthIPv4
    ensures var fs := Fields(IPv4Str(a), '.');
      && |fs| == 4
      && forall k :: 0 <= k < 4 ==>
        && 1 <= |fs[k]| <= 3
        && DecimalDigits(fs[k])
        && Unpadded(fs[k])
        && AllDigits(fs[k])
        && Value(fs[k], 10) == a.bytes[k]
  {
    var parts := DecOctets(a.bytes[..4]);
    DecOctetsWidth(a.bytes[..4]);
    NoSeparatorInDigits(parts, '.');
    FieldsJoin(parts, '.');
    forall k | 0 <= k < 4
      ensures DecimalDigits(parts[k]) && Unpadded(parts[k]) && Value(parts[k], 10) == a.bytes[k]
    {
      DigitsDecimal(a.bytes[k]);
      DigitsReadBack(a.bytes[k], 10);
    }
  }

  // --------------------------------------------------------------- IPv6 text

  /** The 16-bit group k of an IPv6 address, most significant byte first. */
  function Group(bs: seq<byte>, k: nat): (g: nat)
    requires 2 * k + 1 < |bs|
    ensures g < 0x1_0000
  {
    var hi: int, lo: int := bs[2 * k], bs[2 * k + 1];
    hi * 256 + lo
  }

  function HexGroups(bs: seq<byte>): (parts: seq<string>)
    requires |bs| >= Ipf.LengthIPv6
    ensures |parts| == 8
    ensures forall k :: 0 <= k < 8 ==> parts[k] == Digits(Group(bs, k), 16)
  {
    seq(8, k requires 0 <= k < 8 => Digits(Group(bs, k), 16))
  }

  /**
   * `IPv6Address::str`: the eight 16-bit groups in unpadded lower-case hex
   * joined by ':', or "" when the address is not set. Runs of zero groups are
   * not compressed to "::".
   */
  function IPv6Str(a: IPv6Address): (s: string)
    requires a.IsEmpty() || |a.bytes| >= Ipf.LengthIPv6
    ensures a.IsEmpty() <==> s == ""
    ensures !a.IsEmpty() ==> 15 <= |s| <= 39
  {
    if a.IsEmpty() then ""
    else
      var parts := HexGroups(a.bytes);
      HexGroupsWidth(a.bytes);
      JoinLength(parts, ':');
      TotalLengthBounds(parts, 1, 4);
      Join(parts, ':')
  }

  lemma HexGroupsWidth(bs: seq<byte>)
    requires |bs| >= Ipf.LengthIPv6
    ensures forall k :: 0 <= k < 8 ==> 1 <= |HexGroups(bs)[k]| <= 4 && AllDigits(HexGroups(bs)[k])
  {
    assert Pow(16, 4) == 0x1_0000 by {
      assert Pow(16, 1) == 16;
      assert Pow(16, 2) == 256;
      assert Pow(16, 3) == 4096;
    }
    forall k | 0 <= k < 8
      ensures |HexGroups(bs)[k]| <= 4
    {
      DigitsLength(Group(bs, k), 16, 4);
    }
  }

  /**
   * Reading a printed IPv6 address back: split at ':', it has exactly eight
   * fields, and field k is the unpadded lower-case hex numeral of bytes 2k and
   * 2k+1 taken most significant first.
   */
  lemma IPv6StrFields(a: IPv6Address)
    requires |a.bytes| >= Ipf.LengthIPv6
    ensures var fs := Fields(IPv6Str(a), ':');
      && |fs| == 8
      && forall k :: 0 <= k < 8 ==>
        && 1 <= |fs[k]| <= 4
        && AllDigits(fs[k])
        && Unpadded(fs[k])
        && Value(fs[k], 16) == a.bytes[2 * k] as int * 256 + a.bytes[2 * k + 1] as int
  {
    var parts := HexGroups(a.bytes);
    HexGroupsWidth(a.bytes);
    NoSeparatorInDigits(parts, ':');
    FieldsJoin(parts, ':');
    forall k | 0 <= k < 8
      ensures Unpadded(parts[k]) && Value(parts[k], 16) == Group(a.bytes, k)
    {
      DigitsReadBack(Group(a.bytes, k), 16);
    }
  }

  /** A printed address never ends in a space: its last character is a digit. */
  lemma StrEndsInDigit(m: MacAddress, v4: IPv4Address, v6: IPv6Address)
    requires m.IsEmpty() || |m.bytes| >= Ipf.LengthMAC
    requires v4.IsEmpty() || |v4.bytes| >= Ipf.LengthIPv4
    requires v6.IsEmpty() || |v6.bytes| >= Ipf.LengthIPv6
    ensures EndsInDigit(MacStr(m))
    ensures EndsInDigit(IPv4Str(v4))
    ensures EndsInDigit(IPv6Str(v6))
  {
    if !m.IsEmpty() {
      var mp := MacOctets(m.bytes[..Ipf.LengthMAC]);
      MacOctetsWidth(m.bytes[..Ipf.LengthMAC]);
      JoinLast(mp, ':');
    }
    if !v4.IsEmpty() {
      var dp := DecOctets(v4.bytes[..Ipf.LengthIPv4]);
      DecOctetsWidth(v4.bytes[..Ipf.LengthIPv4]);
      JoinLast(dp, '.');
    }
    if !v6.IsEmpty() {
      var hp := HexGroups(v6.bytes);
      HexGroupsWidth(v6.bytes);
      JoinLast(hp, ':');
    }
  }

  /** The all-zero address prints as eight zero groups: there is no "::" compression. */
  lemma IPv6StrAllZero(a: IPv6Address)
    requires |a.bytes| == Ipf.LengthIPv6
    requires forall i :: 0 <= i < |a.bytes| ==> a.bytes[i] == 0
    ensures IPv6Str(a) == "0:0:0:0:0:0:0:0"
  {
    var parts := HexGroups(a.bytes);
    forall k | 0 <= k < 8
      ensures parts[k] == "0"
    {
      assert Group(a.bytes, k) == 0;
      DigitsSmall(0, 16);
    }
    var s, z := IPv6Str(a), "0:0:0:0:0:0:0:0";
    JoinFixedLength(parts, ':', 1);
    forall i | 0 <= i < 15
      ensures s[i] == z[i]
    {
      var k := i / 2;
      JoinFixedWidth(parts, ':', 1, 2, k);
      if i % 2 == 0 {
        assert i == 2 * k && z[i] == '0';
        assert s[2 * k..2 * k + 1] == "0";
      } else {
        assert i == 2 * k + 1 && k + 1 < 8 && z[i] == ':';
      }
    }
  }

  /** Two sixteen-byte IPv6 addresses print the same exactly when they are equal. */
  lemma IPv6StrInjective(a: IPv6Address, b: IPv6Address)
    requires |a.bytes| == |b.bytes| == Ipf.LengthIPv6
    ensures IPv6Str(a) == IPv6Str(b) <==> a == b
  {
    if IPv6Str(a) == IPv6Str(b) {
      var ps, qs := HexGroups(a.bytes), HexGroups(b.bytes);
      HexGroupsWidth(a.bytes);
      HexGroupsWidth(b.bytes);
      NoSeparatorInDigits(ps, ':');
      NoSeparatorInDigits(qs, ':');
      JoinInjective(ps, qs, ':');
      forall k | 0 <= k < 8
        ensures a.bytes[2 * k] == b.bytes[2 * k] && a.bytes[2 * k + 1] == b.bytes[2 * k + 1]
      {
        assert ps[k] == qs[k];
        DigitsInjective(Group(a.bytes, k), Group(b.bytes, k), 16);
      }
      forall i | 0 <= i < 16
        ensures a.bytes[i] == b.bytes[i]
      {
        var k := i / 2;
        assert i == 2 * k || i == 2 * k + 1;
      }
      assert a.bytes == b.bytes;
    }
  }

  // ------------------------------------------------------ IPv4 from a uint32

  /** The low `count` bytes of `n`, least significant first: byte i is `n >> 8i` truncated to a byte. */
  function LowBytes(n: nat, count: nat): (bs: seq<byte>)
    ensures |bs| == count
  {
    if count == 0 then [] else [n % 256] + LowBytes(n / 256, count - 1)
  }

  /** The number whose bytes, least significant first, are `bs`. */
  function LittleEndian(bs: seq<byte>): nat
  {
    if bs == [] then 0 else bs[0] + 256 * LittleEndian(bs[1..])
  }

  /** `IPv4Address(uint32_t)`: the least significant byte of `n` becomes the first octet. */
  function IPv4FromUint32(n: uint32): (a: IPv4Address)
    ensures |a.bytes| == Ipf.LengthIPv4
    ensures LittleEndian(a.bytes) == n
  {
    LowBytesRoundTrip(n, 4);
    Address(LowBytes(n, Ipf.LengthIPv4))
  }

  lemma {:induction false} LowBytesRoundTrip(n: nat, count: nat)
    requires n < Pow(256, count)
    ensures LittleEndian(LowBytes(n, count)) == n
  {
    if count > 0 {
      DivBelow(n, 256, Pow(256, count - 1));
      LowBytesRoundTrip(n / 256, count - 1);
      assert LowBytes(n, count)[1..] == LowBytes(n / 256, count - 1);
    } else {
      assert n == 0;
    }
  }

  lemma {:induction false} LittleEndianBound(bs: seq<byte>)
    ensures LittleEndian(bs) < Pow(256, |bs|)
  {
    if bs != [] {
      LittleEndianBound(bs[1..]);
      MulMonotone(256, LittleEndian(bs[1..]) + 1, Pow(256, |bs| - 1));
    }
  }

  lemma {:induction false} LittleEndianRoundTrip(bs: seq<byte>)
    ensures LowBytes(LittleEndian(bs), |bs|) == bs
  {
    if bs != [] {
      LittleEndianRoundTrip(bs[1..]);
      ByteAndRest(bs[0], LittleEndian(bs[1..]));
      assert bs == [bs[0]] + bs[1..];
    }
  }

  /** Splitting b + 256 * v back into its low byte and the rest. */
  lemma ByteAndRest(b: byte, v: nat)
    ensures (b + 256 * v) % 256 == b && (b + 256 * v) / 256 == v
  {
  }

  /** Every four-byte IPv4 address comes from exactly one uint32. */
  lemma IPv4FromUint32Onto(a: IPv4Address)
    requires |a.bytes| == Ipf.LengthIPv4
    ensures LittleEndian(a.bytes) < 0x1_0000_0000
    ensures IPv4FromUint32(LittleEndian(a.bytes)) == a
  {
    assert Pow(256, 4) == 0x1_0000_0000 by {
      assert Pow(256, 2) == 0x1_0000;
    }
    LittleEndianBound(a.bytes);
    LittleEndianRoundTrip(a.bytes);
  }

  // ------------------------------------------------------------ subnet test

  /**
   * `IPv4Address::mask(addr, mask)`: the first four bytes of this address, each
   * ANDed with the mask, equal the network address `net` (which must therefore
   * be exactly four bytes). Both this address and the mask are read at indices
   * 0..3, so both must have at least four bytes; the receiver is not changed.
   */
  function Mask(a: IPv4Address, net: IPv4Address, mask: IPv4Address): (r: bool)
    requires |a.bytes| >= Ipf.LengthIPv4 && |mask.bytes| >= Ipf.LengthIPv4
    ensures r <==> |net.bytes| == 4 && forall i :: 0 <= i < 4 ==> And(a.bytes[i], mask.bytes[i]) == net.bytes[i]
  {
    var subnet := Address(seq(Ipf.LengthIPv4, i requires 0 <= i < Ipf.LengthIPv4 => And(a.bytes[i], mask.bytes[i])));
    subnet == net
  }

  /** The subnet test looks at the first four bytes of the address only. */
  lemma MaskReadsFourBytes(a: IPv4Address, b: IPv4Address, net: IPv4Address, mask: IPv4Address)
    requires |a.bytes| >= 4 && |b.bytes| >= 4 && |mask.bytes| >= 4
    requires a.bytes[..4] == b.bytes[..4]
    ensures Mask(a, net, mask) == Mask(b, net, mask)
  {
    assert forall i :: 0 <= i < 4 ==> a.bytes[i] == a.bytes[..4][i] == b.bytes[i];
  }

  /** With the all-ones mask, an address is in the subnet exactly when it is the network address. */
  lemma MaskAllOnes(a: IPv4Address, net: IPv4Address)
    requires |a.bytes| == 4
    ensures Mask(a, net, Address(Ipf.BroadcastIPv4)) <==> a == net
  {
    assert forall x: byte :: And(x, 0xFF) == x;
    if Mask(a, net, Address(Ipf.BroadcastIPv4)) {
      assert a.bytes == net.bytes;
    }
  }
}
