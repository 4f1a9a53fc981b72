/**
 * `find_vnet_gaps`: for every virtual network, parse its address spaces and
 * the address prefixes of its subnets (host bits cleared), sweep each space
 * for the ranges no subnet uses, and store in `vnet["gaps"]` one record per
 * gap holding the gap and its `ip_range_to_cidr` list. An exception raised
 * on the way leaves the networks processed so far updated and the rest as
 * they were.
 */
module VnetGaps {
  import opened Bits
  import opened Addresses
  import opened RangeSummary
  import opened GapSweep

  /** A subnet entry of a network: its `address_prefixes` (an absent key reads as none). */
  datatype Subnet = Subnet(addressPrefixes: seq<CidrText>)

  /** One entry of `vnet["gaps"]`: `{"gap": gap, "cidr": ip_range_to_cidr(...)}`. */
  datatype GapRecord = GapRecord(gap: Gap, cidr: seq<CidrEntry>)

  /**
   * A virtual network dictionary as `find_vnet_gaps` uses it: it reads the
   * address prefixes and subnets and writes only the "gaps" entry.
   */
  class Vnet {
    const addressPrefixes: seq<CidrText>
    const subnets: seq<Subnet>
    var gaps: seq<GapRecord>

    constructor(addressPrefixes: seq<CidrText>, subnets: seq<Subnet>)
      ensures this.addressPrefixes == addressPrefixes && this.subnets == subnets && gaps == []
    {
      this.addressPrefixes := addressPrefixes;
      this.subnets := subnets;
      gaps := [];
    }
  }

  /** `[ip_network(cidr, strict=False) for cidr in texts]`: the first text that is no network raises. */
  function ParseNetworks(texts: seq<CidrText>): Result<seq<Prefix>>
  {
    if |texts| == 0 then Ok([])
    else
      match ParseNetwork(texts[0], false)
      case Err(err) => Err(err)
      case Ok(p) =>
        match ParseNetworks(texts[1..])
        case Err(err) => Err(err)
        case Ok(ps) => Ok([p] + ps)
  }

  /**
   * The comprehension succeeds exactly when every text is a network; it
   * then holds the parsed networks in order, and otherwise raises
   * `ValueError`.
   */
  lemma {:induction false} ParseNetworksAll(texts: seq<CidrText>)
    ensures ParseNetworks(texts).Ok? <==> forall i :: 0 <= i < |texts| ==> ParseNetwork(texts[i], false).Ok?
    ensures ParseNetworks(texts).Ok? ==>
      && |ParseNetworks(texts).value| == |texts|
      && (forall i :: 0 <= i < |texts| ==> ParseNetworks(texts).value[i] == ParseNetwork(texts[i], false).value)
      && (forall p :: p in ParseNetworks(texts).value ==> ValidPrefix(p))
    ensures ParseNetworks(texts).Err? ==> ParseNetworks(texts).error == InvalidNetwork
  {
    if |texts| > 0 {
      ParseNetworksAll(texts[1..]);
      assert forall i :: 1 <= i < |texts| ==> texts[i] == texts[1..][i - 1];
    }
  }

  /** The address prefixes of all subnets, subnet after subnet. */
  function SubnetPrefixes(subnets: seq<Subnet>): seq<CidrText>
  {
    if |subnets| == 0 then []
    else subnets[0].addressPrefixes + SubnetPrefixes(subnets[1..])
  }

  /** A text is among the subnet prefixes exactly when some subnet lists it. */
  lemma {:induction false} SubnetPrefixesMembers(subnets: seq<Subnet>)
    ensures forall t :: t in SubnetPrefixes(subnets) <==> exists s :: s in subnets && t in s.addressPrefixes
  {
    if |subnets| > 0 {
      SubnetPrefixesMembers(subnets[1..]);
      assert forall s :: s in subnets <==> s == subnets[0] || s in subnets[1..] by {
        assert subnets == [subnets[0]] + subnets[1..];
      }
    }
  }

  /** The gaps of the first spaces, space after space, or the first error raised. */
  function AllSpaceGaps(spaces: seq<Prefix>, subnets: seq<Prefix>): Result<seq<Gap>>
    decreases |spaces|
  {
    if |spaces| == 0 then Ok([])
    else
      match AllSpaceGaps(spaces[..|spaces| - 1], subnets)
      case Err(err) => Err(err)
      case Ok(gaps) =>
        match SpaceGaps(spaces[|spaces| - 1], subnets)
        case Err(err) => Err(err)
        case Ok(more) => Ok(gaps + more)
  }

  /** The record of one gap; the gap text is split back into its two addresses. */
  function GapRecordOf(g: Gap): Result<GapRecord>
  {
    match IpRangeToCidr(FormatAddress(Address(g.family, g.first)), FormatAddress(Address(g.family, g.last)))
    case Err(err) => Err(err)
    case Ok(cidr) => Ok(GapRecord(g, cidr))
  }

  /** The list comprehension that builds `vnet["gaps"]`. */
  function GapRecords(gaps: seq<Gap>): Result<seq<GapRecord>>
  {
    if |gaps| == 0 then Ok([])
    else
      match GapRecordOf(gaps[0])
      case Err(err) => Err(err)
      case Ok(record) =>
        match GapRecords(gaps[1..])
        case Err(err) => Err(err)
        case Ok(records) => Ok([record] + records)
  }

  /** The gaps `find_vnet_gaps` finds in one network, or what it raises before the records are built. */
  function VnetGapList(prefixes: seq<CidrText>, subnets: seq<Subnet>): Result<seq<Gap>>
  {
    match ParseNetworks(prefixes)
    case Err(err) => Err(err)
    case Ok(spaces) =>
      match ParseNetworks(SubnetPrefixes(subnets))
      case Err(err) => Err(err)
      case Ok(subs) => AllSpaceGaps(spaces, subs)
  }

  /** What `find_vnet_gaps` stores in `vnet["gaps"]` for one network, or what it raises. */
  function VnetGapRecords(prefixes: seq<CidrText>, subnets: seq<Subnet>): Result<seq<GapRecord>>
  {
    match VnetGapList(prefixes, subnets)
    case Err(err) => Err(err)
    case Ok(gaps) => GapRecords(gaps)
  }

  lemma AllSpaceGapsSnoc(spaces: seq<Prefix>, subnets: seq<Prefix>, i: nat, gaps: seq<Gap>, found: Result<seq<Gap>>)
    requires i < |spaces|
    requires AllSpaceGaps(spaces[..i], subnets) == Ok(gaps)
    requires found == SpaceGaps(spaces[i], subnets)
    ensures AllSpaceGaps(spaces[..i + 1], subnets) == if found.Err? then Err(found.error) else Ok(gaps + found.value)
  {
    assert spaces[..i + 1][..i] == spaces[..i];
  }

  /** Once a space raises, the later spaces are never swept. */
  lemma {:induction false} AllSpaceGapsStops(spaces: seq<Prefix>, subnets: seq<Prefix>, n: nat)
    requires n <= |spaces|
    requires AllSpaceGaps(spaces[..n], subnets).Err?
    ensures AllSpaceGaps(spaces, subnets) == AllSpaceGaps(spaces[..n], subnets)
    decreases |spaces| - n
  {
    if n < |spaces| {
      assert spaces[..n + 1][..n] == spaces[..n];
      AllSpaceGapsStops(spaces, subnets, n + 1);
    } else {
      assert spaces[..n] == spaces;
    }
  }

  lemma VnetGapListParsed(prefixes: seq<CidrText>, subnets: seq<Subnet>, spaces: seq<Prefix>, subs: seq<Prefix>)
    requires ParseNetworks(prefixes) == Ok(spaces)
    requires ParseNetworks(SubnetPrefixes(subnets)) == Ok(subs)
    ensures VnetGapList(prefixes, subnets) == AllSpaceGaps(spaces, subs)
  {
  }

  /** The loop of `find_vnet_gaps` over the address spaces of one network. */
  method CollectGaps(v: Vnet) returns (r: Result<seq<Gap>>)
    ensures r == VnetGapList(v.addressPrefixes, v.subnets)
  {
    var parsedSpaces := ParseNetworks(v.addressPrefixes);
    if parsedSpaces.Err? {
      return Err(parsedSpaces.error);
    }
    var parsedSubnets := ParseNetworks(SubnetPrefixes(v.subnets));
    if parsedSubnets.Err? {
      return Err(parsedSubnets.error);
    }
    var spaces, subnets := parsedSpaces.value, parsedSubnets.value;
    var gaps: seq<Gap> := [];
    var i := 0;
    while i < |spaces|
      invariant i <= |spaces|
      invariant AllSpaceGaps(spaces[..i], subnets) == Ok(gaps)
    {
      var found := SweepSpace(spaces[i], subnets);
      AllSpaceGapsSnoc(spaces, subnets, i, gaps, found);
      if found.Err? {
        AllSpaceGapsStops(spaces, subnets, i + 1);
        VnetGapListParsed(v.addressPrefixes, v.subnets, spaces, subnets);
        return Err(found.error);
      }
      gaps := gaps + found.value;
      i := i + 1;
    }
    assert spaces[..i] == spaces;
    VnetGapListParsed(v.addressPrefixes, v.subnets, spaces, subnets);
    r := Ok(gaps);
  }

  /** The "gaps" entry of `v` holds what `find_vnet_gaps` computes for it. */
  ghost predicate HasGaps(v: Vnet)
    reads v
  {
    VnetGapRecords(v.addressPrefixes, v.subnets) == Ok(v.gaps)
  }

  /** The gaps of one network and their records, or what the network raises. */
  method NetworkGaps(v: Vnet) returns (r: Result<seq<GapRecord>>)
    ensures r == VnetGapRecords(v.addressPrefixes, v.subnets)
  {
    var found := CollectGaps(v);
    if found.Err? {
      return Err(found.error);
    }
    r := GapRecords(found.value);
  }

  /**
   * `find_vnet_gaps(vnets)`: the same list comes back, each network's
   * "gaps" entry replaced. When network k raises, the networks before it
   * have been updated and the exception leaves the others as they were.
   */
  method FindVnetGaps(vnets: seq<Vnet>) returns (r: Result<seq<Vnet>>)
    modifies set v | v in vnets
    ensures r.Ok? ==> r.value == vnets && forall j :: 0 <= j < |vnets| ==> HasGaps(vnets[j])
    ensures r.Err? ==> exists k ::
      && 0 <= k < |vnets|
      && VnetGapRecords(vnets[k].addressPrefixes, vnets[k].subnets) == Err(r.error)
      && (forall j :: 0 <= j < k ==> HasGaps(vnets[j]))
      && (forall v :: v in vnets && v !in vnets[..k] ==> v.gaps == old(v.gaps))
  {
    var i := 0;
    while i < |vnets|
      invariant i <= |vnets|
      invariant forall v :: v in vnets[..i] ==> HasGaps(v)
      invariant forall v :: v in vnets && v !in vnets[..i] ==> v.gaps == old(v.gaps)
    {
      var vnet := vnets[i];
      var records := NetworkGaps(vnet);
      if records.Err? {
        assert VnetGapRecords(vnets[i].addressPrefixes, vnets[i].subnets) == Err(records.error);
        assert forall j :: 0 <= j < i ==> vnets[j] in vnets[..i];
        return Err(records.error);
      }
      vnet.gaps := records.value;
      assert HasGaps(vnet);
      assert vnets[..i + 1] == vnets[..i] + [vnet];
      i := i + 1;
    }
    assert vnets[..i] == vnets;
    r := Ok(vnets);
  }

  /** Whether some block among the entries holds address a. */
  ghost predicate InSomeEntry(cidr: seq<CidrEntry>, a: int)
  {
    exists e :: e in cidr && e.Block? && e.prefix.network <= a <= Broadcast(e.prefix)
  }

  /** A gap of one family: a non-empty range inside the family. */
  predicate ValidGap(g: Gap)
  {
    g.first <= g.last < Space(g.family)
  }

  /**
   * The record of a gap: the conversion raises exactly when the gap
   * straddles 2^32; otherwise its entries are the ascending blocks, of the
   * family the integers select, that cover exactly the gap.
   */
  lemma GapRecordOfCovers(g: Gap)
    requires ValidGap(g)
    ensures GapRecordOf(g).Err? <==> FamilyOfInt(g.first) != FamilyOfInt(g.last)
    ensures GapRecordOf(g).Ok? ==>
      var bs := Summary(g.first, g.last, FamilyOfInt(g.last));
      && GapRecordOf(g).value == GapRecord(g, Blocks(bs))
      && AscendingBlocks(bs)
      && (forall a :: g.first <= a <= g.last <==> InSomeBlock(bs, a))
      && (forall i :: 0 <= i < |bs| ==> bs[i].family == FamilyOfInt(g.last))
  {
    GapTextRoundTrip(g);
    IntRangeToCidr(g.first, g.last);
    if FamilyOfInt(g.first) == FamilyOfInt(g.last) {
      SummaryCorrect(g.first, g.last, FamilyOfInt(g.last));
    }
  }

  /** Splitting the gap text gives back its two addresses, in order. */
  lemma GapTextRoundTrip(g: Gap)
    requires ValidGap(g)
    ensures IpRangeToCidr(FormatAddress(Address(g.family, g.first)), FormatAddress(Address(g.family, g.last)))
      == SummarizeInts(g.first, g.last)
  {
  }

  /** The records are built gap by gap, and the comprehension raises exactly when some gap straddles 2^32. */
  lemma {:induction false} GapRecordsAll(gaps: seq<Gap>)
    requires forall g :: g in gaps ==> ValidGap(g)
    ensures GapRecords(gaps).Ok? <==> forall g :: g in gaps ==> FamilyOfInt(g.first) == FamilyOfInt(g.last)
    ensures GapRecords(gaps).Ok? ==>
      && |GapRecords(gaps).value| == |gaps|
      && forall i :: 0 <= i < |gaps| ==> GapRecordOf(gaps[i]) == Ok(GapRecords(gaps).value[i])
  {
    if |gaps| > 0 {
      assert gaps[0] in gaps;
      assert forall g :: g in gaps <==> g == gaps[0] || g in gaps[1..] by {
        assert gaps == [gaps[0]] + gaps[1..];
      }
      GapRecordOfCovers(gaps[0]);
      GapRecordsAll(gaps[1..]);
      if GapRecords(gaps).Ok? {
        forall i | 1 <= i < |gaps|
          ensures GapRecordOf(gaps[i]) == Ok(GapRecords(gaps).value[i])
        {
          assert gaps[i] == gaps[1..][i - 1];
        }
      }
    }
  }

  /** The gaps of several spaces are the gaps of each space, none raising. */
  lemma {:induction false} AllSpaceGapsMembers(spaces: seq<Prefix>, subnets: seq<Prefix>)
    requires AllSpaceGaps(spaces, subnets).Ok?
    ensures forall i :: 0 <= i < |spaces| ==> SpaceGaps(spaces[i], subnets).Ok?
    ensures forall i, g :: 0 <= i < |spaces| && g in SpaceGaps(spaces[i], subnets).value ==>
      g in AllSpaceGaps(spaces, subnets).value
    ensures forall g :: g in AllSpaceGaps(spaces, subnets).value ==>
      exists i :: 0 <= i < |spaces| && SpaceGaps(spaces[i], subnets).Ok? && g in SpaceGaps(spaces[i], subnets).value
    decreases |spaces|
  {
    if |spaces| > 0 {
      var n := |spaces| - 1;
      var init := spaces[..n];
      AllSpaceGapsMembers(init, subnets);
      assert forall i :: 0 <= i < n ==> init[i] == spaces[i];
    }
  }

  lemma BlocksCover(bs: seq<Prefix>)
    ensures forall a :: InSomeEntry(Blocks(bs), a) <==> InSomeBlock(bs, a)
    ensures forall e :: e in Blocks(bs) ==> e.Block? && e.prefix in bs
  {
    forall a
      ensures InSomeEntry(Blocks(bs), a) <==> InSomeBlock(bs, a)
    {
      if InSomeEntry(Blocks(bs), a) {
        var e :| e in Blocks(bs) && e.Block? && e.prefix.network <= a <= Broadcast(e.prefix);
        var i :| 0 <= i < |Blocks(bs)| && Blocks(bs)[i] == e;
        assert bs[i] == e.prefix;
      }
      if InSomeBlock(bs, a) {
        var i :| 0 <= i < |bs| && bs[i].network <= a <= Broadcast(bs[i]);
        assert Blocks(bs)[i] in Blocks(bs);
      }
    }
  }

  /**
   * The entries recorded for a gap are blocks that cover exactly the gap;
   * they are of the gap's own family unless the gap is IPv6 and starts
   * below 2^32.
   */
  lemma RecordCoversGap(g: Gap, record: GapRecord)
    requires ValidGap(g) && GapRecordOf(g) == Ok(record)
    ensures record.gap == g
    ensures forall a :: g.first <= a <= g.last <==> InSomeEntry(record.cidr, a)
    ensures forall e :: e in record.cidr ==>
      (e.Block? && (g.family == V4 || g.first >= Space(V4) ==> e.prefix.family == g.family))
  {
    GapRecordOfCovers(g);
    var bs := Summary(g.first, g.last, FamilyOfInt(g.last));
    BlocksCover(bs);
    if g.family == V4 {
      assert g.last < Space(V4);
    }
    forall e | e in record.cidr
      ensures e.prefix.family == FamilyOfInt(g.last)
    {
      var i :| 0 <= i < |bs| && bs[i] == e.prefix;
    }
  }

  /** The gaps of a network that does not raise, and the records built from them. */
  lemma {:induction false} VnetGapsParts(prefixes: seq<CidrText>, subnets: seq<Subnet>)
    requires VnetGapRecords(prefixes, subnets).Ok?
    ensures ParseNetworks(prefixes).Ok? && ParseNetworks(SubnetPrefixes(subnets)).Ok?
    ensures var spaces := ParseNetworks(prefixes).value;
      var subs := ParseNetworks(SubnetPrefixes(subnets)).value;
      var gaps := AllSpaceGaps(spaces, subs).value;
      var records := VnetGapRecords(prefixes, subnets).value;
      && AllSpaceGaps(spaces, subs).Ok?
      && (forall g :: g in gaps ==> ValidGap(g))
      && (forall g :: g in gaps ==>
            exists j :: 0 <= j < |spaces| && SpaceGaps(spaces[j], subs).Ok? && g in SpaceGaps(spaces[j], subs).value &&
              g.family == spaces[j].family && spaces[j].network <= g.first && g.last <= Broadcast(spaces[j]))
      && |records| == |gaps|
      && (forall i :: 0 <= i < |gaps| ==> GapRecordOf(gaps[i]) == Ok(records[i]))
  {
    var spaces := ParseNetworks(prefixes).value;
    var subs := ParseNetworks(SubnetPrefixes(subnets)).value;
    var gaps := AllSpaceGaps(spaces, subs).value;
    ParseNetworksAll(prefixes);
    ParseNetworksAll(SubnetPrefixes(subnets));
    AllSpaceGapsMembers(spaces, subs);
    forall j | 0 <= j < |spaces|
      ensures forall g :: g in SpaceGaps(spaces[j], subs).value ==>
        g.family == spaces[j].family && spaces[j].network <= g.first <= g.last <= Broadcast(spaces[j])
    {
      assert spaces[j] in spaces;
      SpaceGapsWithin(spaces[j], subs);
    }
    forall g | g in gaps
      ensures ValidGap(g)
    {
      var j :| 0 <= j < |spaces| && SpaceGaps(spaces[j], subs).Ok? && g in SpaceGaps(spaces[j], subs).value;
      assert spaces[j] in spaces;
    }
    GapRecordsAll(gaps);
  }

  /**
   * A record is sound when its gap lies in one of the address spaces and
   * its CIDR entries are blocks that cover exactly the gap, in the gap's own
   * family unless the gap is IPv6 and starts below 2^32.
   */
  ghost predicate SoundRecord(record: GapRecord, spaces: seq<Prefix>)
  {
    var g := record.gap;
    && (exists space :: space in spaces &&
          g.family == space.family && space.network <= g.first <= g.last <= Broadcast(space))
    && (forall a :: g.first <= a <= g.last <==> InSomeEntry(record.cidr, a))
    && (forall e :: e in record.cidr ==>
          (e.Block? && (g.family == V4 || g.first >= Space(V4) ==> e.prefix.family == g.family)))
  }

  lemma RecordSoundAt(prefixes: seq<CidrText>, subnets: seq<Subnet>, i: nat)
    requires VnetGapRecords(prefixes, subnets).Ok? && i < |VnetGapRecords(prefixes, subnets).value|
    ensures ParseNetworks(prefixes).Ok?
    ensures SoundRecord(VnetGapRecords(prefixes, subnets).value[i], ParseNetworks(prefixes).value)
  {
    VnetGapsParts(prefixes, subnets);
    var spaces := ParseNetworks(prefixes).value;
    var subs := ParseNetworks(SubnetPrefixes(subnets)).value;
    var gaps := AllSpaceGaps(spaces, subs).value;
    var record := VnetGapRecords(prefixes, subnets).value[i];
    assert gaps[i] in gaps;
    var j :| 0 <= j < |spaces| && SpaceGaps(spaces[j], subs).Ok? && gaps[i] in SpaceGaps(spaces[j], subs).value &&
      gaps[i].family == spaces[j].family && spaces[j].network <= gaps[i].first && gaps[i].last <= Broadcast(spaces[j]);
    GapRecordSound(spaces, j, gaps[i], record);
  }

  lemma GapRecordSound(spaces: seq<Prefix>, j: nat, g: Gap, record: GapRecord)
    requires j < |spaces|
    requires g.family == spaces[j].family && spaces[j].network <= g.first && g.last <= Broadcast(spaces[j])
    requires ValidGap(g) && GapRecordOf(g) == Ok(record)
    ensures SoundRecord(record, spaces)
  {
    RecordCoversGap(g, record);
    assert spaces[j] in spaces;
  }

  /** Every record `find_vnet_gaps` stores for a network is sound. */
  lemma VnetGapsSound(prefixes: seq<CidrText>, subnets: seq<Subnet>)
    requires VnetGapRecords(prefixes, subnets).Ok?
    ensures ParseNetworks(prefixes).Ok?
    ensures forall record :: record in VnetGapRecords(prefixes, subnets).value ==>
      SoundRecord(record, ParseNetworks(prefixes).value)
  {
    var records := VnetGapRecords(prefixes, subnets).value;
    forall record | record in records
      ensures SoundRecord(record, ParseNetworks(prefixes).value)
    {
      var i :| 0 <= i < |records| && records[i] == record;
      RecordSoundAt(prefixes, subnets, i);
    }
    VnetGapsParts(prefixes, subnets);
  }

  /** Whether the gap of some record of family f holds address a. */
  ghost predicate InSomeRecord(records: seq<GapRecord>, f: Family, a: int)
  {
    exists r :: r in records && r.gap.family == f && r.gap.first <= a <= r.gap.last
  }

  lemma GapOfRecord(g: Gap, record: GapRecord)
    requires GapRecordOf(g) == Ok(record)
    ensures record.gap == g
  {
  }

  lemma RecordGapUncovered(spaces: seq<Prefix>, subs: seq<Prefix>, gaps: seq<Gap>, records: seq<GapRecord>, f: Family, a: int)
    requires forall p :: p in spaces ==> ValidPrefix(p)
    requires forall p :: p in subs ==> ValidPrefix(p)
    requires Disjoint(subs)
    requires AllSpaceGaps(spaces, subs) == Ok(gaps)
    requires |records| == |gaps| && forall i :: 0 <= i < |gaps| ==> GapRecordOf(gaps[i]) == Ok(records[i])
    requires InSomeRecord(records, f, a)
    ensures !InSubnetOf(subs, f, a)
  {
    AllSpaceGapsMembers(spaces, subs);
    var r :| r in records && r.gap.family == f && r.gap.first <= a <= r.gap.last;
    var i :| 0 <= i < |records| && records[i] == r;
    GapOfRecord(gaps[i], r);
    assert gaps[i] in gaps;
    var k :| 0 <= k < |spaces| && SpaceGaps(spaces[k], subs).Ok? && gaps[i] in SpaceGaps(spaces[k], subs).value;
    assert spaces[k] in spaces;
    GapUncovered(spaces[k], subs, gaps[i], a);
  }

  /** An address in a gap of a space whose subnets are disjoint lies in none of them. */
  lemma GapUncovered(space: Prefix, subs: seq<Prefix>, g: Gap, a: int)
    requires ValidPrefix(space) && forall p :: p in subs ==> ValidPrefix(p)
    requires Disjoint(subs)
    requires SpaceGaps(space, subs).Ok? && g in SpaceGaps(space, subs).value
    requires g.first <= a <= g.last
    ensures !InSubnetOf(subs, g.family, a)
  {
    SpaceGapsWithin(space, subs);
    SpaceGapsExact(space, subs);
    assert InSomeGap(SpaceGaps(space, subs).value, a);
  }

  /** An address of a space whose subnets are disjoint that no subnet holds lies in a gap of that space. */
  lemma UncoveredInGap(space: Prefix, subs: seq<Prefix>, a: int)
    requires ValidPrefix(space) && forall p :: p in subs ==> ValidPrefix(p)
    requires Disjoint(subs)
    requires SpaceGaps(space, subs).Ok?
    requires space.network <= a <= Broadcast(space) && !InSubnetOf(subs, space.family, a)
    ensures exists g :: g in SpaceGaps(space, subs).value && g.family == space.family && g.first <= a <= g.last
  {
    SpaceGapsExact(space, subs);
    SpaceGapsWithin(space, subs);
    var g :| g in SpaceGaps(space, subs).value && g.first <= a <= g.last;
  }

  lemma UncoveredInRecord(spaces: seq<Prefix>, subs: seq<Prefix>, gaps: seq<Gap>, records: seq<GapRecord>, j: nat, a: int)
    requires forall p :: p in spaces ==> ValidPrefix(p)
    requires forall p :: p in subs ==> ValidPrefix(p)
    requires Disjoint(subs)
    requires AllSpaceGaps(spaces, subs) == Ok(gaps)
    requires |records| == |gaps| && forall i :: 0 <= i < |gaps| ==> GapRecordOf(gaps[i]) == Ok(records[i])
    requires j < |spaces| && spaces[j].network <= a <= Broadcast(spaces[j])
    requires !InSubnetOf(subs, spaces[j].family, a)
    ensures InSomeRecord(records, spaces[j].family, a)
  {
    var space := spaces[j];
    AllSpaceGapsMembers(spaces, subs);
    assert space in spaces;
    UncoveredInGap(space, subs, a);
    var g :| g in SpaceGaps(space, subs).value && g.family == space.family && g.first <= a <= g.last;
    assert g in gaps;
    var i :| 0 <= i < |gaps| && gaps[i] == g;
    GapOfRecord(g, records[i]);
    assert records[i] in records;
  }

  /**
   * When no two subnets of a network overlap, the records `find_vnet_gaps`
   * stores hold, in every address space, exactly the addresses that no
   * subnet holds.
   */
  lemma VnetGapsExact(prefixes: seq<CidrText>, subnets: seq<Subnet>)
    requires VnetGapRecords(prefixes, subnets).Ok?
    requires ParseNetworks(SubnetPrefixes(subnets)).Ok? && Disjoint(ParseNetworks(SubnetPrefixes(subnets)).value)
    ensures ParseNetworks(prefixes).Ok?
    ensures forall space, a :: space in ParseNetworks(prefixes).value && space.network <= a <= Broadcast(space) ==>
      (InSomeRecord(VnetGapRecords(prefixes, subnets).value, space.family, a) <==>
       !InSubnetOf(ParseNetworks(SubnetPrefixes(subnets)).value, space.family, a))
  {
    VnetGapsParts(prefixes, subnets);
    ParseNetworksAll(prefixes);
    ParseNetworksAll(SubnetPrefixes(subnets));
    var spaces := ParseNetworks(prefixes).value;
    var subs := ParseNetworks(SubnetPrefixes(subnets)).value;
    var gaps := AllSpaceGaps(spaces, subs).value;
    var records := VnetGapRecords(prefixes, subnets).value;
    forall space, a | space in spaces && space.network <= a <= Broadcast(space)
      ensures InSomeRecord(records, space.family, a) <==> !InSubnetOf(subs, space.family, a)
    {
      var j :| 0 <= j < |spaces| && spaces[j] == space;
      if InSomeRecord(records, space.family, a) {
        RecordGapUncovered(spaces, subs, gaps, records, space.family, a);
      }
      if !InSubnetOf(subs, space.family, a) {
        UncoveredInRecord(spaces, subs, gaps, records, j, a);
      }
    }
  }
}
