/**
 * IPv4/IPv6 addresses and CIDR prefixes as `ipaddress` represents them:
 * a family, an unbounded integer value, and for a prefix its network
 * address and prefix length. The textual grammar of addresses is not
 * modelled: a text either denotes a (family, integer) pair, possibly out of
 * range, or is not an address at all.
 */
module Addresses {
  import opened Bits

  datatype Family = V4 | V6

  /** `max_prefixlen`: the number of bits in an address of the family. */
  function Width(f: Family): nat
  {
    match f
    case V4 => 32
    case V6 => 128
  }

  /** The number of addresses of the family, 2^32 or 2^128 (see `SpaceIsPow2`). */
  function Space(f: Family): nat
  {
    match f
    case V4 => 0x1_0000_0000
    case V6 => 0x1_0000_0000_0000_0000_0000_0000_0000_0000
  }

  lemma SpaceIsPow2(f: Family)
    ensures Space(f) == Pow2(Width(f))
  {
    if f == V4 {
      Pow2Of32();
    } else {
      Pow2Of128();
    }
  }

  lemma Pow2Of32()
    ensures Pow2(32) == 0x1_0000_0000
  {
    Pow2Of16();
    Pow2Add(16, 16);
  }

  lemma Pow2Of16()
    ensures Pow2(16) == 0x1_0000
  {
    assert Pow2(8) == 0x100;
    Pow2Add(8, 8);
  }

  lemma Pow2Of128()
    ensures Pow2(128) == 0x1_0000_0000_0000_0000_0000_0000_0000_0000
  {
    Pow2Of64();
    Pow2Add(64, 64);
  }

  lemma Pow2Of64()
    ensures Pow2(64) == 0x1_0000_0000_0000_0000
  {
    Pow2Of32();
    Pow2Add(32, 32);
  }

  /** `_ALL_ONES`: the largest address of the family. */
  function AllOnes(f: Family): nat
  {
    Space(f) - 1
  }

  /** The powers of two the literal examples of the model use. */
  lemma Pow2Values()
    ensures Pow2(4) == 16 && Pow2(7) == 128 && Pow2(8) == 256
  {
  }

  datatype Address = Address(family: Family, value: nat)

  predicate ValidAddress(a: Address)
  {
    a.value < Space(a.family)
  }

  /** Address text after lexing: the family it is written in and the integer it spells. */
  datatype AddressText = AddressText(family: Family, value: int) | NotAnAddress

  /** CIDR text `address/len` after lexing. */
  datatype CidrText = CidrText(family: Family, address: int, len: int) | NotACidr

  /**
   * The exceptions of the core. The `ValueError` family (bad address or
   * network text, an address pushed past the family maximum, an inverted
   * range) and the `TypeError` that `summarize_address_range` raises for
   * addresses of two different families.
   */
  datatype Error = InvalidAddress | InvalidNetwork | AddressOverflow | InvalidRange | VersionMismatch

  datatype Result<T> = Ok(value: T) | Err(error: Error)

  /** A parsed network: `network_address` and `prefixlen` within a family. */
  datatype Prefix = Prefix(family: Family, network: nat, len: nat)

  function HostBits(p: Prefix): nat
  {
    if p.len <= Width(p.family) then Width(p.family) - p.len else 0
  }

  /** `num_addresses`. */
  function NumAddresses(p: Prefix): nat
  {
    Pow2(HostBits(p))
  }

  /** `broadcast_address`: the last address of the network. */
  function Broadcast(p: Prefix): int
  {
    p.network + NumAddresses(p) - 1
  }

  /** What every network that `ipaddress` constructs satisfies: host bits clear, inside the family. */
  predicate ValidPrefix(p: Prefix)
  {
    && p.len <= Width(p.family)
    && Aligned(p.network, HostBits(p))
    && Broadcast(p) < Space(p.family)
  }

  /** A valid network: a length within the family, a network address that is a multiple of the block size, and no address past the family. */
  lemma ValidPrefixIff(p: Prefix)
    ensures ValidPrefix(p) <==>
      && p.len <= Width(p.family)
      && p.network % NumAddresses(p) == 0
      && p.network + NumAddresses(p) <= Space(p.family)
  {
    AlignedIffMod(p.network, HostBits(p));
  }

  function FormatAddress(a: Address): AddressText
  {
    AddressText(a.family, a.value)
  }

  /** `ipaddress.ip_address(text)`. */
  function ParseAddress(t: AddressText): (r: Result<Address>)
    ensures r.Ok? <==> t.AddressText? && 0 <= t.value < Space(t.family)
    ensures r.Ok? ==> ValidAddress(r.value) && r.value.family == t.family && r.value.value == t.value
  {
    match t
    case AddressText(f, v) =>
      if 0 <= v < Space(f) then Ok(Address(f, v)) else Err(InvalidAddress)
    case NotAnAddress => Err(InvalidAddress)
  }

  /**
   * `ipaddress.ip_address(n)` for an integer n: the IPv4 constructor is tried
   * first, so every value below 2^32 becomes an IPv4 address whatever family
   * it was read from.
   */
  function AddressOfInt(n: nat): (r: Result<Address>)
    ensures r.Ok? <==> n < Space(V6)
    ensures r.Ok? ==> ValidAddress(r.value) && r.value.value == n
    ensures r.Ok? ==> (r.value.family == V4 <==> n < Space(V4))
  {
    if n < Space(V4) then Ok(Address(V4, n))
    else if n < Space(V6) then Ok(Address(V6, n))
    else Err(InvalidAddress)
  }

  /**
   * `ipaddress.ip_network(text, strict)`. A non-strict parse clears the host
   * bits; a strict parse rejects an address with host bits set.
   */
  function ParseNetwork(t: CidrText, strict: bool): (r: Result<Prefix>)
    ensures r.Ok? <==>
      && t.CidrText?
      && 0 <= t.address < Space(t.family)
      && 0 <= t.len <= Width(t.family)
      && (strict ==> Aligned(t.address, Width(t.family) - t.len))
    ensures r.Ok? ==>
      && ValidPrefix(r.value)
      && r.value.family == t.family && r.value.len == t.len
      && r.value.network <= t.address <= Broadcast(r.value)
  {
    match t
    case NotACidr => Err(InvalidNetwork)
    case CidrText(f, a, l) =>
      if !(0 <= a < Space(f)) || !(0 <= l <= Width(f)) then Err(InvalidNetwork)
      else
        var h := Width(f) - l;
        var net := ClearLowBits(a, h);
        ClearLowBitsFixed(a, h);
        if strict && net != a then Err(InvalidNetwork)
        else
          SpaceIsPow2(f);
          AlignedPow2(h, Width(f));
          AlignedGap(net, Space(f), h);
          Ok(Prefix(f, net, l))
  }

  /**
   * The network a non-strict parse yields is the canonical one: the only
   * aligned block of its size that holds the written address, with the
   * broadcast address 2^(width - len) - 1 above it.
   */
  lemma NonStrictParseCanonical(t: CidrText, q: Prefix)
    requires ParseNetwork(t, false).Ok?
    requires ValidPrefix(q) && q.family == t.family && q.len == t.len
    requires q.network <= t.address <= Broadcast(q)
    ensures ParseNetwork(t, false).value == q
    ensures Broadcast(q) == q.network + Pow2(Width(t.family) - t.len) - 1
  {
    var p := ParseNetwork(t, false).value;
    assert p.family == q.family && p.len == q.len;
    assert HostBits(p) == HostBits(q) == Width(t.family) - t.len;
    AlignedBlockUnique(p.network, q.network, t.address, HostBits(p));
    assert p == Prefix(q.family, q.network, q.len);
  }

  /**
   * `count_ip_addresses`: the size of a strictly parsed network, or 0 when
   * the text is not a network (a network with host bits set included).
   */
  function CountIpAddresses(t: CidrText): (r: nat)
    ensures ParseNetwork(t, true).Ok? ==> r == Pow2(Width(t.family) - t.len)
    ensures r == 0 <==> ParseNetwork(t, true).Err?
  {
    match ParseNetwork(t, true)
    case Ok(p) => NumAddresses(p)
    case Err(_) => 0
  }

  /** `address in network`: `address & netmask == network_address` within one family. */
  predicate Contains(p: Prefix, a: Address)
  {
    p.family == a.family && ClearLowBits(a.value, HostBits(p)) == p.network
  }

  lemma ContainsIffInRange(p: Prefix, a: Address)
    requires ValidPrefix(p)
    ensures Contains(p, a) <==> p.family == a.family && p.network <= a.value <= Broadcast(p)
  {
    var c := ClearLowBits(a.value, HostBits(p));
    if p.family == a.family && p.network <= a.value <= Broadcast(p) {
      AlignedBlockUnique(c, p.network, a.value, HostBits(p));
    }
  }

  /** `_BaseNetwork.overlaps`: either network holds an end point of the other. */
  predicate Overlaps(p: Prefix, q: Prefix)
  {
    || Contains(q, Address(p.family, p.network))
    || Contains(q, Address(p.family, Broadcast(p)))
    || Contains(p, Address(q.family, q.network))
    || Contains(p, Address(q.family, Broadcast(q)))
  }

  lemma OverlapsIffIntersect(p: Prefix, q: Prefix)
    requires ValidPrefix(p) && ValidPrefix(q)
    ensures Overlaps(p, q) <==>
      p.family == q.family && p.network <= Broadcast(q) && q.network <= Broadcast(p)
  {
    ContainsIffInRange(q, Address(p.family, p.network));
    ContainsIffInRange(q, Address(p.family, Broadcast(p)));
    ContainsIffInRange(p, Address(q.family, q.network));
    ContainsIffInRange(p, Address(q.family, Broadcast(q)));
  }
}
