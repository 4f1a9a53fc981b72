/**
 * `find_vnet_gaps` as evidently intended: the sweep never moves its cursor
 * back (`GapSweep.GapsCorrected`) and each gap is converted in the family it
 * was found in (`RangeSummary.IpRangeToCidrCorrected`). With both
 * corrections the records of a network hold, in every address space,
 * exactly the addresses no subnet holds, whether or not subnets overlap, and
 * every CIDR entry is a block of the gap's own family.
 */
module CorrectedGaps {
  import opened Addresses
  import opened RangeSummary
  import opened GapSweep
  import opened VnetGaps

  /** The corrected gaps of every address space, space after space. */
  function AllSpaceGapsCorrected(spaces: seq<Prefix>, subnets: seq<Prefix>): seq<Gap>
  {
    if |spaces| == 0 then []
    else SpaceGapsCorrected(spaces[0], subnets) + AllSpaceGapsCorrected(spaces[1..], subnets)
  }

  /** A gap is among the corrected gaps of the network exactly when it is a corrected gap of one of its spaces. */
  lemma {:induction false} AllSpaceGapsCorrectedMembers(spaces: seq<Prefix>, subnets: seq<Prefix>)
    ensures forall g :: g in AllSpaceGapsCorrected(spaces, subnets) <==>
      exists j :: 0 <= j < |spaces| && g in SpaceGapsCorrected(spaces[j], subnets)
  {
    if |spaces| > 0 {
      var tail := spaces[1..];
      AllSpaceGapsCorrectedMembers(tail, subnets);
      forall g | g in AllSpaceGapsCorrected(tail, subnets)
        ensures exists j :: 0 <= j < |spaces| && g in SpaceGapsCorrected(spaces[j], subnets)
      {
        var j :| 0 <= j < |tail| && g in SpaceGapsCorrected(tail[j], subnets);
        assert spaces[j + 1] == tail[j];
      }
      forall g, j | 0 < j < |spaces| && g in SpaceGapsCorrected(spaces[j], subnets)
        ensures g in AllSpaceGapsCorrected(tail, subnets)
      {
        assert tail[j - 1] == spaces[j];
      }
    }
  }

  /** The CIDR list of a gap, converted in the gap's own family. */
  function CidrCorrected(g: Gap): seq<CidrEntry>
  {
    match IpRangeToCidrCorrected(FormatAddress(Address(g.family, g.first)), FormatAddress(Address(g.family, g.last)))
    case Ok(cidr) => cidr
    case Err(err) => [ErrorEntry(err)]
  }

  /** The corrected conversion of a gap never raises, and its blocks, all of the gap's family, cover exactly the gap. */
  lemma CidrCorrectedCovers(g: Gap)
    requires ValidGap(g)
    ensures IpRangeToCidrCorrected(FormatAddress(Address(g.family, g.first)), FormatAddress(Address(g.family, g.last)))
      == Ok(CidrCorrected(g))
    ensures forall a :: g.first <= a <= g.last <==> InSomeEntry(CidrCorrected(g), a)
    ensures forall e :: e in CidrCorrected(g) ==> e.Block? && e.prefix.family == g.family
  {
    var first, last := FormatAddress(Address(g.family, g.first)), FormatAddress(Address(g.family, g.last));
    IpRangeToCidrCorrectedCovers(first, last);
    var bs := Summary(g.first, g.last, g.family);
    BlocksCover(bs);
    forall e | e in CidrCorrected(g)
      ensures e.prefix.family == g.family
    {
      var i :| 0 <= i < |bs| && bs[i] == e.prefix;
    }
  }

  /** One record per gap, in order. */
  function RecordsCorrected(gaps: seq<Gap>): (records: seq<GapRecord>)
    ensures |records| == |gaps|
    ensures forall i :: 0 <= i < |gaps| ==> records[i] == GapRecord(gaps[i], CidrCorrected(gaps[i]))
  {
    seq(|gaps|, i requires 0 <= i < |gaps| => GapRecord(gaps[i], CidrCorrected(gaps[i])))
  }

  /** What the corrected `find_vnet_gaps` stores for one network, or the `ValueError` a network text raises. */
  function VnetGapRecordsCorrected(prefixes: seq<CidrText>, subnets: seq<Subnet>): Result<seq<GapRecord>>
  {
    match ParseNetworks(prefixes)
    case Err(err) => Err(err)
    case Ok(spaces) =>
      match ParseNetworks(SubnetPrefixes(subnets))
      case Err(err) => Err(err)
      case Ok(subs) => Ok(RecordsCorrected(AllSpaceGapsCorrected(spaces, subs)))
  }

  /**
   * A corrected record is sound when its gap lies in one of the address
   * spaces and its entries are blocks of the gap's family that cover exactly
   * the gap.
   */
  ghost predicate SoundCorrectedRecord(record: GapRecord, spaces: seq<Prefix>)
  {
    var g := record.gap;
    && (exists space :: space in spaces &&
          g.family == space.family && space.network <= g.first <= g.last <= Broadcast(space))
    && (forall a :: g.first <= a <= g.last <==> InSomeEntry(record.cidr, a))
    && (forall e :: e in record.cidr ==> e.Block? && e.prefix.family == g.family)
  }

  /** The record of a corrected gap of one of the spaces is sound. */
  lemma CorrectedRecordSoundAt(spaces: seq<Prefix>, subs: seq<Prefix>, j: nat, g: Gap)
    requires j < |spaces| && ValidPrefix(spaces[j])
    requires forall p :: p in subs ==> ValidPrefix(p)
    requires g in SpaceGapsCorrected(spaces[j], subs)
    ensures SoundCorrectedRecord(GapRecord(g, CidrCorrected(g)), spaces)
  {
    SpaceGapsCorrectedExact(spaces[j], subs);
    assert spaces[j] in spaces;
    CidrCorrectedCovers(g);
  }

  /** Every record the corrected sweep stores for a network is sound. */
  lemma CorrectedRecordsSound(spaces: seq<Prefix>, subs: seq<Prefix>)
    requires forall p :: p in spaces ==> ValidPrefix(p)
    requires forall p :: p in subs ==> ValidPrefix(p)
    ensures forall r :: r in RecordsCorrected(AllSpaceGapsCorrected(spaces, subs)) ==> SoundCorrectedRecord(r, spaces)
  {
    var gaps := AllSpaceGapsCorrected(spaces, subs);
    var records := RecordsCorrected(gaps);
    AllSpaceGapsCorrectedMembers(spaces, subs);
    forall r | r in records
      ensures SoundCorrectedRecord(r, spaces)
    {
      var i :| 0 <= i < |records| && records[i] == r;
      var g := gaps[i];
      assert g in gaps;
      var j :| 0 <= j < |spaces| && g in SpaceGapsCorrected(spaces[j], subs);
      assert spaces[j] in spaces;
      CorrectedRecordSoundAt(spaces, subs, j, g);
    }
  }

  /** An address of a space that no subnet holds lies in the gap of some record of the space's family. */
  lemma UncoveredInCorrectedRecord(spaces: seq<Prefix>, subs: seq<Prefix>, j: nat, a: int)
    requires forall p :: p in spaces ==> ValidPrefix(p)
    requires forall p :: p in subs ==> ValidPrefix(p)
    requires j < |spaces| && spaces[j].network <= a <= Broadcast(spaces[j])
    requires !InSubnetOf(subs, spaces[j].family, a)
    ensures InSomeRecord(RecordsCorrected(AllSpaceGapsCorrected(spaces, subs)), spaces[j].family, a)
  {
    var gaps := AllSpaceGapsCorrected(spaces, subs);
    var records := RecordsCorrected(gaps);
    AllSpaceGapsCorrectedMembers(spaces, subs);
    assert spaces[j] in spaces;
    SpaceGapsCorrectedExact(spaces[j], subs);
    var g :| g in SpaceGapsCorrected(spaces[j], subs) && g.first <= a <= g.last;
    assert g in gaps;
    var i :| 0 <= i < |gaps| && gaps[i] == g;
    assert records[i] in records;
  }

  /** An address in the gap of a record lies in no subnet of the gap's family. */
  lemma CorrectedRecordUncovered(spaces: seq<Prefix>, subs: seq<Prefix>, f: Family, a: int)
    requires forall p :: p in spaces ==> ValidPrefix(p)
    requires forall p :: p in subs ==> ValidPrefix(p)
    requires InSomeRecord(RecordsCorrected(AllSpaceGapsCorrected(spaces, subs)), f, a)
    ensures !InSubnetOf(subs, f, a)
  {
    var gaps := AllSpaceGapsCorrected(spaces, subs);
    var records := RecordsCorrected(gaps);
    AllSpaceGapsCorrectedMembers(spaces, subs);
    var r :| r in records && r.gap.family == f && r.gap.first <= a <= r.gap.last;
    var i :| 0 <= i < |records| && records[i] == r;
    var g := gaps[i];
    assert g in gaps;
    var k :| 0 <= k < |spaces| && g in SpaceGapsCorrected(spaces[k], subs);
    assert spaces[k] in spaces;
    CorrectedGapUncovered(spaces[k], subs, g, a);
  }

  /** An address in a corrected gap of a space lies in no subnet of the gap's family. */
  lemma CorrectedGapUncovered(space: Prefix, subs: seq<Prefix>, g: Gap, a: int)
    requires ValidPrefix(space) && forall p :: p in subs ==> ValidPrefix(p)
    requires g in SpaceGapsCorrected(space, subs) && g.first <= a <= g.last
    ensures !InSubnetOf(subs, g.family, a)
  {
    SpaceGapsCorrectedExact(space, subs);
    assert InSomeGap(SpaceGapsCorrected(space, subs), a);
  }

  /**
   * The corrected `find_vnet_gaps` raises only for a text that is no
   * network. Otherwise every record it stores is sound, and in every address
   * space the records hold exactly the addresses that no subnet of the
   * space's family holds, overlapping subnets included.
   */
  lemma VnetGapsCorrectedExact(prefixes: seq<CidrText>, subnets: seq<Subnet>)
    ensures VnetGapRecordsCorrected(prefixes, subnets).Ok? <==>
      ParseNetworks(prefixes).Ok? && ParseNetworks(SubnetPrefixes(subnets)).Ok?
    ensures VnetGapRecordsCorrected(prefixes, subnets).Ok? ==>
      var spaces := ParseNetworks(prefixes).value;
      var subs := ParseNetworks(SubnetPrefixes(subnets)).value;
      var records := VnetGapRecordsCorrected(prefixes, subnets).value;
      && (forall r :: r in records ==> SoundCorrectedRecord(r, spaces))
      && (forall space, a :: space in spaces && space.network <= a <= Broadcast(space) ==>
            (InSomeRecord(records, space.family, a) <==> !InSubnetOf(subs, space.family, a)))
  {
    if VnetGapRecordsCorrected(prefixes, subnets).Ok? {
      var spaces := ParseNetworks(prefixes).value;
      var subs := ParseNetworks(SubnetPrefixes(subnets)).value;
      var records := VnetGapRecordsCorrected(prefixes, subnets).value;
      ParseNetworksAll(prefixes);
      ParseNetworksAll(SubnetPrefixes(subnets));
      CorrectedRecordsSound(spaces, subs);
      forall space, a | space in spaces && space.network <= a <= Broadcast(space)
        ensures InSomeRecord(records, space.family, a) <==> !InSubnetOf(subs, space.family, a)
      {
        var j :| 0 <= j < |spaces| && spaces[j] == space;
        if InSomeRecord(records, space.family, a) {
          CorrectedRecordUncovered(spaces, subs, space.family, a);
        }
        if !InSubnetOf(subs, space.family, a) {
          UncoveredInCorrectedRecord(spaces, subs, j, a);
        }
      }
    }
  }
}
