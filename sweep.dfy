/**
 * The gap sweep of `find_vnet_gaps` over one address space: the subnets
 * that overlap the space are sorted by network address and walked with a
 * cursor that starts at the space's network address; a gap is recorded
 * whenever the next subnet starts past the cursor, and once more at the end
 * if the cursor has not passed the space's broadcast address.
 *
 * As written, the cursor is set to the broadcast address of the subnet just
 * passed plus one, even when an earlier subnet reached further, and moving
 * past the last address of the family raises. `GapsCorrected` keeps the
 * furthest end seen instead; the two agree when the subnets do not overlap.
 */
module GapSweep {
  import opened Addresses
  import opened NetworkSort

  /** A gap `"{first} - {last}"`: the addresses first..last of one family, both ends included. */
  datatype Gap = Gap(family: Family, first: nat, last: nat)

  /** `[s for s in subnets if vnet_space.overlaps(s)]`. */
  function RelevantSubnets(space: Prefix, subnets: seq<Prefix>): seq<Prefix>
  {
    if |subnets| == 0 then []
    else if Overlaps(space, subnets[0]) then [subnets[0]] + RelevantSubnets(space, subnets[1..])
    else RelevantSubnets(space, subnets[1..])
  }

  /** The filter keeps exactly the subnets that overlap the space. */
  lemma {:induction false} RelevantSubnetsMembers(space: Prefix, subnets: seq<Prefix>)
    ensures forall p :: p in RelevantSubnets(space, subnets) <==> p in subnets && Overlaps(space, p)
  {
    if |subnets| > 0 {
      RelevantSubnetsMembers(space, subnets[1..]);
      assert forall p :: p in subnets <==> p == subnets[0] || p in subnets[1..] by {
        assert subnets == [subnets[0]] + subnets[1..];
      }
    }
  }

  /** The relevant subnets in the order the sweep visits them. */
  function SweepOrder(space: Prefix, subnets: seq<Prefix>): seq<Prefix>
  {
    SortByNetwork(RelevantSubnets(space, subnets))
  }

  /** The gaps the sweep records from `cursor` on, the cursor being assigned after each subnet. */
  function GapsFrom(f: Family, cursor: nat, last: int, subs: seq<Prefix>): seq<Gap>
    decreases |subs|
  {
    if |subs| == 0 then
      if cursor <= last then [Gap(f, cursor, last)] else []
    else
      var s := subs[0];
      var rest := GapsFrom(f, Broadcast(s) + 1, last, subs[1..]);
      if s.network > cursor then [Gap(f, cursor, s.network - 1)] + rest else rest
  }

  /** `subnet.broadcast_address + 1` raises for a subnet that ends at the last address of its family. */
  predicate EndsAtTop(s: Prefix)
  {
    Broadcast(s) == AllOnes(s.family)
  }

  /** The sweep of `order` from `first` to `last`: its gaps, or the error a subnet at the top of the family raises. */
  function Sweep(f: Family, first: nat, last: int, order: seq<Prefix>): Result<seq<Gap>>
  {
    if exists s :: s in order && EndsAtTop(s) then Err(AddressOverflow)
    else Ok(GapsFrom(f, first, last, order))
  }

  /** The gaps of one address space as the source computes them, or the error it raises. */
  function SpaceGaps(space: Prefix, subnets: seq<Prefix>): Result<seq<Gap>>
  {
    Sweep(space.family, space.network, Broadcast(space), SweepOrder(space, subnets))
  }

  /** With no subnet overlapping the space, the sweep records the whole space as its one gap. */
  lemma SpaceGapsNoRelevant(space: Prefix, subnets: seq<Prefix>)
    requires forall s :: s in subnets ==> !Overlaps(space, s)
    ensures SpaceGaps(space, subnets) == Ok([Gap(space.family, space.network, Broadcast(space))])
  {
    NoRelevantSubnets(space, subnets);
    assert SweepOrder(space, subnets) == [];
  }

  lemma {:induction false} NoRelevantSubnets(space: Prefix, subnets: seq<Prefix>)
    requires forall s :: s in subnets ==> !Overlaps(space, s)
    ensures RelevantSubnets(space, subnets) == []
  {
    if |subnets| > 0 {
      assert subnets[0] in subnets;
      assert forall s :: s in subnets[1..] ==> s in subnets;
      NoRelevantSubnets(space, subnets[1..]);
    }
  }

  /** A subnet that fills the whole space, below the top of the family, leaves no gap. */
  lemma SpaceGapsFullSubnet(space: Prefix)
    requires ValidPrefix(space) && !EndsAtTop(space)
    ensures SpaceGaps(space, [space]) == Ok([])
  {
    OverlapsIffIntersect(space, space);
    assert [space][1..] == [];
    assert RelevantSubnets(space, [space]) == [space];
    assert SortByNetwork([space]) == Insert(space, []) == [space];
    assert forall s :: s in [space] ==> s == space;
    assert GapsFrom(space.family, Broadcast(space) + 1, Broadcast(space), []) == [];
  }

  /** The gaps of one address space: its relevant subnets, sorted, then swept. */
  method SweepSpace(space: Prefix, subnets: seq<Prefix>) returns (r: Result<seq<Gap>>)
    ensures r == SpaceGaps(space, subnets)
  {
    var order := SweepOrder(space, subnets);
    r := SweepSorted(space.family, space.network, Broadcast(space), order);
  }

  /** The loop of `find_vnet_gaps` over the sorted relevant subnets of one address space. */
  method SweepSorted(f: Family, first: nat, last: int, order: seq<Prefix>) returns (r: Result<seq<Gap>>)
    ensures r == Sweep(f, first, last, order)
  {
    var gaps: seq<Gap> := [];
    var current: nat := first;
    var rest := order;
    assert [] + GapsFrom(f, first, last, order) == GapsFrom(f, first, last, order);
    while |rest| > 0
      invariant Resume(gaps, Sweep(f, current, last, rest)) == Sweep(f, first, last, order)
    {
      var subnet := rest[0];
      ghost var before := gaps;
      if subnet.network > current {
        gaps := gaps + [Gap(f, current, subnet.network - 1)];
      }
      if Broadcast(subnet) == AllOnes(subnet.family) {
        SweepRaises(f, current, last, rest);
        return Err(AddressOverflow);
      }
      SweepStep(f, current, last, rest, before, gaps);
      current := Broadcast(subnet) + 1;
      rest := rest[1..];
    }
    ghost var before := gaps;
    if current <= last {
      gaps := gaps + [Gap(f, current, last)];
    }
    SweepEnd(f, current, last, before, gaps);
    r := Ok(gaps);
  }

  /** The outcome of a sweep whose earlier part has already recorded `gaps`. */
  function Resume(gaps: seq<Gap>, r: Result<seq<Gap>>): Result<seq<Gap>>
  {
    if r.Ok? then Ok(gaps + r.value) else r
  }

  lemma SweepRaises(f: Family, cursor: nat, last: int, subs: seq<Prefix>)
    requires |subs| > 0 && EndsAtTop(subs[0])
    ensures Sweep(f, cursor, last, subs) == Err(AddressOverflow)
  {
    assert subs[0] in subs;
  }

  lemma SweepStep(f: Family, cursor: nat, last: int, subs: seq<Prefix>, gaps: seq<Gap>, gaps': seq<Gap>)
    requires |subs| > 0 && !EndsAtTop(subs[0])
    requires gaps' == if subs[0].network > cursor then gaps + [Gap(f, cursor, subs[0].network - 1)] else gaps
    ensures Resume(gaps, Sweep(f, cursor, last, subs)) == Resume(gaps', Sweep(f, Broadcast(subs[0]) + 1, last, subs[1..]))
  {
    TopInTail(subs);
    if !exists s :: s in subs[1..] && EndsAtTop(s) {
      assert gaps + GapsFrom(f, cursor, last, subs) == gaps' + GapsFrom(f, Broadcast(subs[0]) + 1, last, subs[1..]);
    }
  }

  lemma TopInTail(subs: seq<Prefix>)
    requires |subs| > 0 && !EndsAtTop(subs[0])
    ensures (exists s :: s in subs && EndsAtTop(s)) <==> (exists s :: s in subs[1..] && EndsAtTop(s))
  {
    assert forall s :: s in subs <==> s == subs[0] || s in subs[1..] by {
      assert subs == [subs[0]] + subs[1..];
    }
  }

  lemma SweepEnd(f: Family, cursor: nat, last: int, gaps: seq<Gap>, gaps': seq<Gap>)
    requires gaps' == if cursor <= last then gaps + [Gap(f, cursor, last)] else gaps
    ensures Resume(gaps, Sweep(f, cursor, last, [])) == Ok(gaps')
  {
    assert gaps + [] == gaps;
  }

  /** Whether some gap holds address a. */
  ghost predicate InSomeGap(gaps: seq<Gap>, a: int)
  {
    exists g :: g in gaps && g.first <= a <= g.last
  }

  /** Whether some of the subnets holds address a. */
  ghost predicate Covered(subs: seq<Prefix>, a: int)
  {
    exists s :: s in subs && s.network <= a <= Broadcast(s)
  }

  /** Each gap ends before the next one starts. */
  ghost predicate AscendingGaps(gaps: seq<Gap>)
  {
    forall i, j :: 0 <= i < j < |gaps| ==> gaps[i].last < gaps[j].first
  }

  /**
   * Every gap the sweep records is a non-empty range of the family between
   * `lo` and `last`, provided the subnets start by `last` and end at or
   * after `lo` (as the subnets overlapping a space do, for `lo` its network
   * address) and the cursor starts at or after `lo`.
   */
  lemma {:induction false} GapsFromWithin(f: Family, lo: nat, cursor: nat, last: int, subs: seq<Prefix>)
    requires lo <= cursor
    requires forall s :: s in subs ==> s.network <= last && lo <= Broadcast(s) + 1
    ensures forall g :: g in GapsFrom(f, cursor, last, subs) ==>
      g.family == f && lo <= g.first <= g.last <= last
    decreases |subs|
  {
    if |subs| > 0 {
      assert subs[0] in subs;
      assert forall s :: s in subs[1..] ==> s in subs;
      GapsFromWithin(f, lo, Broadcast(subs[0]) + 1, last, subs[1..]);
    }
  }

  /**
   * The gaps of an address space lie inside it, whatever subnets the
   * network has: each runs from an address of the space to a later or equal
   * one.
   */
  lemma SpaceGapsWithin(space: Prefix, subnets: seq<Prefix>)
    requires ValidPrefix(space)
    requires forall s :: s in subnets ==> ValidPrefix(s)
    requires SpaceGaps(space, subnets).Ok?
    ensures forall g :: g in SpaceGaps(space, subnets).value ==>
      g.family == space.family && space.network <= g.first <= g.last <= Broadcast(space)
  {
    var order := SweepOrder(space, subnets);
    SortMembers(RelevantSubnets(space, subnets));
    RelevantSubnetsMembers(space, subnets);
    forall s | s in order
      ensures s.network <= Broadcast(space) && space.network <= Broadcast(s) + 1
    {
      OverlapsIffIntersect(space, s);
    }
    GapsFromWithin(space.family, space.network, space.network, Broadcast(space), order);
  }

  /**
   * The sweep fails exactly when a subnet that overlaps the space ends at
   * the last address of its family.
   */
  lemma SpaceGapsFails(space: Prefix, subnets: seq<Prefix>)
    ensures SpaceGaps(space, subnets).Err? <==>
      exists s :: s in subnets && Overlaps(space, s) && EndsAtTop(s)
    ensures SpaceGaps(space, subnets).Err? ==> SpaceGaps(space, subnets).error == AddressOverflow
  {
    SortMembers(RelevantSubnets(space, subnets));
    RelevantSubnetsMembers(space, subnets);
  }

  /** The sweep with the cursor moved to the furthest end seen so far, never back. */
  function GapsCorrected(f: Family, cursor: nat, last: int, subs: seq<Prefix>): seq<Gap>
    decreases |subs|
  {
    if |subs| == 0 then
      if cursor <= last then [Gap(f, cursor, last)] else []
    else
      var s := subs[0];
      var next := if Broadcast(s) + 1 > cursor then Broadcast(s) + 1 else cursor;
      var rest := GapsCorrected(f, next, last, subs[1..]);
      if s.network > cursor then [Gap(f, cursor, s.network - 1)] + rest else rest
  }

  /** The gaps of one address space as the sweep evidently intends them. */
  function SpaceGapsCorrected(space: Prefix, subnets: seq<Prefix>): seq<Gap>
  {
    GapsCorrected(space.family, space.network, Broadcast(space), SweepOrder(space, subnets))
  }

  lemma SortedTail(subs: seq<Prefix>)
    requires |subs| > 0 && SortedByNetwork(subs)
    ensures forall t :: t in subs[1..] ==> subs[0].network <= t.network
    ensures forall t :: t in subs <==> t == subs[0] || t in subs[1..]
  {
    assert subs == [subs[0]] + subs[1..];
  }

  /**
   * The corrected sweep records ascending gaps of the family between the
   * starting cursor and `last`.
   */
  lemma {:induction false} GapsCorrectedWithin(f: Family, cursor: nat, last: int, subs: seq<Prefix>)
    requires forall s :: s in subs ==> s.network <= last
    ensures var gaps := GapsCorrected(f, cursor, last, subs);
      && (forall g :: g in gaps ==> g.family == f && cursor <= g.first <= g.last <= last)
      && AscendingGaps(gaps)
    decreases |subs|
  {
    if |subs| > 0 {
      var s := subs[0];
      var next := if Broadcast(s) + 1 > cursor then Broadcast(s) + 1 else cursor;
      assert forall t :: t in subs[1..] ==> t in subs;
      GapsCorrectedWithin(f, next, last, subs[1..]);
      assert s in subs;
      CorrectedStepWithin(f, cursor, next, last, s, GapsCorrected(f, next, last, subs[1..]),
        GapsCorrected(f, cursor, last, subs));
    }
  }

  /** One step of `GapsCorrectedWithin`: the gap before a subnet, then the gaps after it. */
  lemma CorrectedStepWithin(f: Family, cursor: nat, next: nat, last: int, s: Prefix, rest: seq<Gap>, gaps: seq<Gap>)
    requires cursor <= next && s.network <= last && (s.network > cursor ==> s.network <= next)
    requires gaps == if s.network > cursor then [Gap(f, cursor, s.network - 1)] + rest else rest
    requires forall g :: g in rest ==> g.family == f && next <= g.first <= g.last <= last
    requires AscendingGaps(rest)
    ensures forall g :: g in gaps ==> g.family == f && cursor <= g.first <= g.last <= last
    ensures AscendingGaps(gaps)
  {
    if s.network > cursor {
      forall i, j | 0 <= i < j < |gaps|
        ensures gaps[i].last < gaps[j].first
      {
        assert gaps[j] == rest[j - 1];
        if i > 0 {
          assert gaps[i] == rest[i - 1];
        }
      }
    }
  }

  /**
   * The corrected sweep over subnets sorted by network address yields,
   * from `cursor` to `last`, gaps that hold exactly the addresses no subnet
   * holds.
   */
  lemma {:induction false} GapsCorrectedExact(f: Family, cursor: nat, last: int, subs: seq<Prefix>)
    requires SortedByNetwork(subs)
    requires forall s :: s in subs ==> s.network <= last
    ensures forall a :: cursor <= a <= last ==>
      (InSomeGap(GapsCorrected(f, cursor, last, subs), a) <==> !Covered(subs, a))
    decreases |subs|
  {
    var gaps := GapsCorrected(f, cursor, last, subs);
    if |subs| > 0 {
      var s := subs[0];
      var next := if Broadcast(s) + 1 > cursor then Broadcast(s) + 1 else cursor;
      var rest := GapsCorrected(f, next, last, subs[1..]);
      SortedTail(subs);
      GapsCorrectedExact(f, next, last, subs[1..]);
      GapsCorrectedWithin(f, next, last, subs[1..]);
      assert gaps == if s.network > cursor then [Gap(f, cursor, s.network - 1)] + rest else rest;
      forall a | cursor <= a <= last
        ensures InSomeGap(gaps, a) <==> !Covered(subs, a)
      {
        if s.network > cursor && a < s.network {
          assert gaps[0] in gaps;
        } else if a < next {
          assert s.network <= a <= Broadcast(s);
        } else {
          assert Covered(subs, a) <==> Covered(subs[1..], a);
        }
      }
    }
  }

  /** Whether a subnet of family f holds address a. */
  ghost predicate InSubnetOf(subnets: seq<Prefix>, f: Family, a: int)
  {
    exists s :: s in subnets && s.family == f && s.network <= a <= Broadcast(s)
  }

  /** The subnets the sweep visits are those of the space's family that meet the space. */
  lemma SweepOrderMembers(space: Prefix, subnets: seq<Prefix>)
    requires ValidPrefix(space)
    requires forall s :: s in subnets ==> ValidPrefix(s)
    ensures SortedByNetwork(SweepOrder(space, subnets))
    ensures forall s :: s in SweepOrder(space, subnets) <==>
      s in subnets && s.family == space.family && s.network <= Broadcast(space) && space.network <= Broadcast(s)
  {
    var relevant := RelevantSubnets(space, subnets);
    SortSorted(relevant);
    SortMembers(relevant);
    RelevantSubnetsMembers(space, subnets);
    forall s | s in subnets
      ensures Overlaps(space, s) <==>
        s.family == space.family && s.network <= Broadcast(space) && space.network <= Broadcast(s)
    {
      OverlapsIffIntersect(space, s);
    }
  }

  /**
   * The corrected gaps of an address space are ascending, lie inside the
   * space, and hold exactly the addresses of the space that no subnet of the
   * space's family holds.
   */
  lemma SpaceGapsCorrectedExact(space: Prefix, subnets: seq<Prefix>)
    requires ValidPrefix(space)
    requires forall s :: s in subnets ==> ValidPrefix(s)
    ensures var gaps := SpaceGapsCorrected(space, subnets);
      && (forall g :: g in gaps ==>
            g.family == space.family && space.network <= g.first <= g.last <= Broadcast(space))
      && AscendingGaps(gaps)
      && (forall a :: space.network <= a <= Broadcast(space) ==>
            (InSomeGap(gaps, a) <==> !InSubnetOf(subnets, space.family, a)))
  {
    var order := SweepOrder(space, subnets);
    SweepOrderMembers(space, subnets);
    GapsCorrectedWithin(space.family, space.network, Broadcast(space), order);
    GapsCorrectedExact(space.family, space.network, Broadcast(space), order);
    forall a | space.network <= a <= Broadcast(space)
      ensures Covered(order, a) <==> InSubnetOf(subnets, space.family, a)
    {
    }
  }

  /** No two different subnets overlap, as Azure requires of the subnets of one virtual network. */
  predicate Disjoint(subnets: seq<Prefix>)
  {
    forall p, q :: p in subnets && q in subnets && p != q ==> !Overlaps(p, q)
  }

  /**
   * Over sorted subnets each of which ends before every later different one
   * starts, and none of which ends before the cursor, assigning the cursor
   * is the same as keeping the furthest end seen.
   */
  lemma {:induction false} GapsFromAgrees(f: Family, cursor: nat, last: int, subs: seq<Prefix>)
    requires forall i, j :: 0 <= i < j < |subs| ==> subs[i] == subs[j] || Broadcast(subs[i]) < subs[j].network
    requires forall s :: s in subs ==> cursor <= Broadcast(s) + 1
    ensures GapsFrom(f, cursor, last, subs) == GapsCorrected(f, cursor, last, subs)
    decreases |subs|
  {
    if |subs| > 0 {
      var s := subs[0];
      assert s in subs;
      var tail := subs[1..];
      forall t | t in tail
        ensures Broadcast(s) + 1 <= Broadcast(t) + 1
      {
        var j :| 0 <= j < |tail| && tail[j] == t;
        assert subs[j + 1] == t;
      }
      forall i, j | 0 <= i < j < |tail|
        ensures tail[i] == tail[j] || Broadcast(tail[i]) < tail[j].network
      {
        assert tail[i] == subs[i + 1] && tail[j] == subs[j + 1];
      }
      GapsFromAgrees(f, Broadcast(s) + 1, last, tail);
    }
  }

  /**
   * When no two subnets overlap, the sweep as written gives the corrected
   * gaps whenever it does not fail.
   */
  lemma SpaceGapsAgree(space: Prefix, subnets: seq<Prefix>)
    requires ValidPrefix(space)
    requires forall s :: s in subnets ==> ValidPrefix(s)
    requires Disjoint(subnets)
    requires SpaceGaps(space, subnets).Ok?
    ensures SpaceGaps(space, subnets).value == SpaceGapsCorrected(space, subnets)
  {
    var order := SweepOrder(space, subnets);
    SweepOrderMembers(space, subnets);
    forall i, j | 0 <= i < j < |order|
      ensures order[i] == order[j] || Broadcast(order[i]) < order[j].network
    {
      assert order[i] in order && order[j] in order;
      OverlapsIffIntersect(order[i], order[j]);
    }
    GapsFromAgrees(space.family, space.network, Broadcast(space), order);
  }

  /**
   * Consequently, for subnets that do not overlap, the gaps the source
   * records are ascending and hold exactly the addresses of the space that
   * no subnet of its family holds.
   */
  lemma SpaceGapsExact(space: Prefix, subnets: seq<Prefix>)
    requires ValidPrefix(space)
    requires forall s :: s in subnets ==> ValidPrefix(s)
    requires Disjoint(subnets)
    requires SpaceGaps(space, subnets).Ok?
    ensures var gaps := SpaceGaps(space, subnets).value;
      && AscendingGaps(gaps)
      && (forall a :: space.network <= a <= Broadcast(space) ==>
            (InSomeGap(gaps, a) <==> !InSubnetOf(subnets, space.family, a)))
  {
    SpaceGapsAgree(space, subnets);
    SpaceGapsCorrectedExact(space, subnets);
  }

  /**
   * A subnet nested in an earlier, larger one pulls the cursor back: in
   * 10.0.0.0/24 with subnets 10.0.0.0/25 and 10.0.0.16/28 the sweep reports
   * 10.0.0.32 - 10.0.0.255 as free although 10.0.0.32 - 10.0.0.127 lies in
   * the /25; the corrected sweep reports 10.0.0.128 - 10.0.0.255.
   */
  lemma NestedSubnetGap(space: Prefix, wide: Prefix, nested: Prefix)
    requires space == Prefix(V4, 0x0A00_0000, 24)
    requires wide == Prefix(V4, 0x0A00_0000, 25) && nested == Prefix(V4, 0x0A00_0010, 28)
    ensures SpaceGaps(space, [wide, nested]) == Ok([Gap(V4, 0x0A00_0020, 0x0A00_00FF)])
    ensures InSubnetOf([wide, nested], V4, 0x0A00_0020)
    ensures SpaceGapsCorrected(space, [wide, nested]) == [Gap(V4, 0x0A00_0080, 0x0A00_00FF)]
  {
    NestedValues(space, wide, nested);
    OverlapsIffIntersect(space, wide);
    OverlapsIffIntersect(space, nested);
    NestedShape(space, wide, nested);
    assert wide in [wide, nested];
  }

  lemma NestedValues(space: Prefix, wide: Prefix, nested: Prefix)
    requires space == Prefix(V4, 0x0A00_0000, 24)
    requires wide == Prefix(V4, 0x0A00_0000, 25) && nested == Prefix(V4, 0x0A00_0010, 28)
    ensures Broadcast(space) == 0x0A00_00FF && Broadcast(wide) == 0x0A00_007F && Broadcast(nested) == 0x0A00_001F
    ensures ValidPrefix(space) && ValidPrefix(wide) && ValidPrefix(nested)
    ensures !EndsAtTop(wide) && !EndsAtTop(nested)
  {
    Pow2Values();
  }

  /** The sweep over a space whose first subnet starts with it and holds the second one. */
  lemma NestedShape(space: Prefix, wide: Prefix, nested: Prefix)
    requires Overlaps(space, wide) && Overlaps(space, nested)
    requires !EndsAtTop(wide) && !EndsAtTop(nested)
    requires wide.network == space.network < nested.network
    requires Broadcast(nested) < Broadcast(wide) < Broadcast(space)
    ensures SpaceGaps(space, [wide, nested]) == Ok([Gap(space.family, Broadcast(nested) + 1, Broadcast(space))])
    ensures SpaceGapsCorrected(space, [wide, nested]) == [Gap(space.family, Broadcast(wide) + 1, Broadcast(space))]
  {
    var f, last := space.family, Broadcast(space);
    SweepOrderOfTwo(space, wide, nested);
    NestedAsWritten(f, space.network, last, wide, nested);
    NestedCorrected(f, space.network, last, wide, nested);
    assert forall s :: s in [wide, nested] ==> s == wide || s == nested;
  }

  lemma NestedAsWritten(f: Family, first: nat, last: int, wide: Prefix, nested: Prefix)
    requires wide.network == first < nested.network && Broadcast(nested) < Broadcast(wide) < last
    ensures GapsFrom(f, first, last, [wide, nested]) == [Gap(f, Broadcast(nested) + 1, last)]
  {
    assert [wide, nested][1..] == [nested];
    assert GapsFrom(f, Broadcast(nested) + 1, last, []) == [Gap(f, Broadcast(nested) + 1, last)];
    assert GapsFrom(f, Broadcast(wide) + 1, last, [nested]) == GapsFrom(f, Broadcast(nested) + 1, last, []);
  }

  lemma NestedCorrected(f: Family, first: nat, last: int, wide: Prefix, nested: Prefix)
    requires wide.network == first < nested.network && Broadcast(nested) < Broadcast(wide) < last
    ensures GapsCorrected(f, first, last, [wide, nested]) == [Gap(f, Broadcast(wide) + 1, last)]
  {
    assert [wide, nested][1..] == [nested];
    assert GapsCorrected(f, Broadcast(wide) + 1, last, []) == [Gap(f, Broadcast(wide) + 1, last)];
    assert GapsCorrected(f, Broadcast(wide) + 1, last, [nested]) == GapsCorrected(f, Broadcast(wide) + 1, last, []);
  }

  /** Two subnets that both overlap the space and come in order are swept in that order. */
  lemma SweepOrderOfTwo(space: Prefix, a: Prefix, b: Prefix)
    requires Overlaps(space, a) && Overlaps(space, b) && a.network <= b.network
    ensures SweepOrder(space, [a, b]) == [a, b]
  {
    assert [a, b][1..] == [b];
    assert [b][1..] == [];
    assert RelevantSubnets(space, [b]) == [b] + RelevantSubnets(space, []);
    assert RelevantSubnets(space, [a, b]) == [a] + RelevantSubnets(space, [b]);
    assert SortByNetwork([b]) == Insert(b, []) == [b];
    assert SortByNetwork([a, b]) == Insert(a, [b]) == [a] + [b];
  }

  /**
   * A subnet that ends at the last address of the family makes the sweep
   * raise: in 255.255.255.0/24 with the single subnet 255.255.255.0/24 the
   * cursor cannot move past 255.255.255.255, although the space simply has
   * no gap, as the corrected sweep reports.
   */
  lemma TopSubnetRaises(space: Prefix, subnet: Prefix)
    requires space == Prefix(V4, 0xFFFF_FF00, 24) && subnet == space
    ensures SpaceGaps(space, [subnet]) == Err(AddressOverflow)
    ensures SpaceGapsCorrected(space, [subnet]) == []
  {
    Pow2Values();
    assert Broadcast(space) == 0xFFFF_FFFF;
    assert ValidPrefix(space);
    OverlapsIffIntersect(space, subnet);
    assert [subnet][1..] == [];
    assert RelevantSubnets(space, [subnet]) == [subnet];
    assert SortByNetwork([subnet]) == Insert(subnet, []) == [subnet];
    assert subnet in SweepOrder(space, [subnet]) && EndsAtTop(subnet);
    assert GapsCorrected(space.family, Broadcast(subnet) + 1, Broadcast(space), []) == [];
  }
}
