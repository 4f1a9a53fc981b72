/**
 * `ip_range_to_cidr` and the standard library's `summarize_address_range`
 * that it delegates to: the greedy loop that covers an inclusive range of
 * addresses with the largest aligned CIDR blocks that fit, in ascending
 * order.
 */
module RangeSummary {
  import opened Bits
  import opened Addresses

  /**
   * Size exponent of the block emitted at `first`: the smaller of the
   * number of trailing zero bits of `first` (all `width` bits for zero) and
   * `(last - first + 1).bit_length() - 1`.
   */
  function BlockBits(first: nat, last: nat, width: nat): (k: nat)
    requires first <= last
    ensures k <= width
  {
    var zeros := RightZeroBits(first, width);
    var fit := Log2(last - first + 1);
    if zeros <= fit then zeros else fit
  }

  /**
   * The block of 2^k addresses at `first` is aligned, fits below `last`, and
   * the block of twice the size at `first` would be misaligned, would
   * overrun `last`, or would be wider than the family.
   */
  lemma BlockBitsLargest(first: nat, last: nat, width: nat)
    requires first <= last < Pow2(width)
    ensures var k := BlockBits(first, last, width);
      && Aligned(first, k)
      && first + Pow2(k) - 1 <= last
      && (k == width || !Aligned(first, k + 1) || first + Pow2(k + 1) - 1 > last)
  {
    var k := BlockBits(first, last, width);
    Log2Bounds(last - first + 1);
    Pow2Monotone(k, Log2(last - first + 1));
    if first == 0 {
      AlignedZero(k);
    } else {
      TrailingZerosDivide(first, k);
      if k == TrailingZeros(first) {
        TrailingZerosExact(first);
      }
    }
    if k < Log2(last - first + 1) {
      Pow2Monotone(k + 1, Log2(last - first + 1));
    }
  }

  /** The block a prefix stands for is the largest aligned one at its start that ends by `last`. */
  predicate LargestBlockAt(p: Prefix, last: nat)
  {
    && ValidPrefix(p)
    && Broadcast(p) <= last
    && (p.len == 0
        || !Aligned(p.network, HostBits(p) + 1)
        || p.network + Pow2(HostBits(p) + 1) - 1 > last)
  }

  /** The blocks `summarize_address_range` yields from `first` on, as a specification. */
  function Summary(first: nat, last: nat, f: Family): seq<Prefix>
    requires last < Space(f)
    decreases last + 1 - first
  {
    if first > last then []
    else
      var k := BlockBits(first, last, Width(f));
      [Prefix(f, first, Width(f) - k)] + Summary(first + Pow2(k), last, f)
  }

  ghost predicate InSomeBlock(blocks: seq<Prefix>, a: int)
  {
    exists i :: 0 <= i < |blocks| && blocks[i].network <= a <= Broadcast(blocks[i])
  }

  /** Every block ends before every later block starts. */
  ghost predicate AscendingBlocks(blocks: seq<Prefix>)
  {
    forall i, j :: 0 <= i < j < |blocks| ==> Broadcast(blocks[i]) < blocks[j].network
  }

  /** The block the greedy loop emits at `first` is the largest that fits. */
  lemma HeadBlockLargest(first: nat, last: nat, f: Family)
    requires first <= last < Space(f)
    ensures var k := BlockBits(first, last, Width(f));
      var head := Prefix(f, first, Width(f) - k);
      && LargestBlockAt(head, last)
      && Broadcast(head) == first + Pow2(k) - 1
  {
    var k := BlockBits(first, last, Width(f));
    SpaceIsPow2(f);
    BlockBitsLargest(first, last, Width(f));
    var head := Prefix(f, first, Width(f) - k);
    assert HostBits(head) == k;
    assert NumAddresses(head) == Pow2(k);
    assert Broadcast(head) == first + Pow2(k) - 1;
    assert ValidPrefix(head);
  }

  lemma SummaryEmpty(first: nat, last: nat, f: Family)
    requires first > last && last < Space(f)
    ensures Summary(first, last, f) == []
  {
  }

  lemma SummaryUnfold(first: nat, last: nat, f: Family)
    requires first <= last < Space(f)
    ensures var k := BlockBits(first, last, Width(f));
      Summary(first, last, f) == [Prefix(f, first, Width(f) - k)] + Summary(first + Pow2(k), last, f)
  {
  }

  /** One step of the greedy cover: the block at `first`, then the cover of what is left. */
  lemma SummaryStep(first: nat, last: nat, f: Family)
    requires first <= last < Space(f)
    ensures var k := BlockBits(first, last, Width(f));
      var head := Prefix(f, first, Width(f) - k);
      && LargestBlockAt(head, last)
      && Broadcast(head) == first + Pow2(k) - 1
      && Summary(first, last, f) == [head] + Summary(first + Pow2(k), last, f)
  {
    HeadBlockLargest(first, last, f);
  }

  /** `blocks` tile [first, last] with largest blocks of family f, each right after its predecessor. */
  ghost predicate Tiling(bs: seq<Prefix>, first: int, last: nat, f: Family)
  {
    && |bs| > 0
    && bs[0].network == first
    && Broadcast(bs[|bs| - 1]) == last
    && (forall i :: 0 <= i < |bs| ==> bs[i].family == f && LargestBlockAt(bs[i], last))
    && (forall i :: 0 <= i < |bs| - 1 ==> Broadcast(bs[i]) + 1 == bs[i + 1].network)
  }

  /** A largest block followed by a tiling of the rest of the range tiles the whole range. */
  lemma TilingCons(head: Prefix, rest: seq<Prefix>, whole: seq<Prefix>, last: nat, f: Family)
    requires head.family == f && LargestBlockAt(head, last)
    requires Tiling(rest, Broadcast(head) + 1, last, f)
    requires whole == [head] + rest
    ensures Tiling(whole, head.network, last, f)
  {
    forall i | 0 <= i < |whole|
      ensures whole[i].family == f && LargestBlockAt(whole[i], last)
    {
      if i > 0 {
        assert whole[i] == rest[i - 1];
      }
    }
    forall i | 0 <= i < |whole| - 1
      ensures Broadcast(whole[i]) + 1 == whole[i + 1].network
    {
      if i > 0 {
        assert whole[i] == rest[i - 1] && whole[i + 1] == rest[i];
      }
    }
  }

  /** A largest block that ends the range tiles it on its own. */
  lemma TilingSingle(head: Prefix, rest: seq<Prefix>, whole: seq<Prefix>, last: nat, f: Family)
    requires head.family == f && LargestBlockAt(head, last) && Broadcast(head) == last
    requires rest == [] && whole == [head] + rest
    ensures Tiling(whole, head.network, last, f)
  {
    assert whole == [head];
  }

  /** The greedy blocks tile [first, last] with no hole. */
  lemma {:induction false} SummaryTiles(first: nat, last: nat, f: Family)
    requires first <= last < Space(f)
    ensures Tiling(Summary(first, last, f), first, last, f)
    decreases last + 1 - first
  {
    SummaryStep(first, last, f);
    var k := BlockBits(first, last, Width(f));
    var head := Prefix(f, first, Width(f) - k);
    var next := first + Pow2(k);
    if next <= last {
      SummaryTiles(next, last, f);
      TilingCons(head, Summary(next, last, f), Summary(first, last, f), last, f);
    } else {
      SummaryEmpty(next, last, f);
      TilingSingle(head, Summary(next, last, f), Summary(first, last, f), last, f);
    }
  }

  /** Tiling blocks are ascending and cover exactly [first, last]. */
  lemma {:induction false} TilesCoverExactly(bs: seq<Prefix>, first: int, last: int)
    requires |bs| > 0 && bs[0].network == first && Broadcast(bs[|bs| - 1]) == last
    requires forall i :: 0 <= i < |bs| ==> bs[i].network <= Broadcast(bs[i])
    requires forall i :: 0 <= i < |bs| - 1 ==> Broadcast(bs[i]) + 1 == bs[i + 1].network
    ensures AscendingBlocks(bs)
    ensures forall a :: first <= a <= last <==> InSomeBlock(bs, a)
  {
    if |bs| > 1 {
      var rest := bs[1..];
      TilesCoverExactly(rest, bs[1].network, last);
      forall i, j | 0 <= i < j < |bs|
        ensures Broadcast(bs[i]) < bs[j].network
      {
        if i > 0 {
          assert Broadcast(rest[i - 1]) < rest[j - 1].network;
        } else if j > 1 {
          assert bs[1].network <= Broadcast(rest[0]) < rest[j - 1].network;
        }
      }
      forall a | first <= a <= last
        ensures InSomeBlock(bs, a)
      {
        if a > Broadcast(bs[0]) {
          assert InSomeBlock(rest, a);
          var i :| 0 <= i < |rest| && rest[i].network <= a <= Broadcast(rest[i]);
          assert bs[i + 1] == rest[i];
        }
      }
      forall a | InSomeBlock(bs, a)
        ensures first <= a <= last
      {
        var i :| 0 <= i < |bs| && bs[i].network <= a <= Broadcast(bs[i]);
        if i > 0 {
          assert InSomeBlock(rest, a) by {
            assert rest[i - 1] == bs[i];
          }
        }
      }
    }
  }

  /**
   * `summarize_address_range(first, last)` on a non-empty range: ascending,
   * pairwise disjoint, aligned blocks of the range's family that cover
   * exactly [first, last], each the largest aligned block starting at its
   * position that does not pass `last`.
   */
  lemma SummaryCorrect(first: nat, last: nat, f: Family)
    requires first <= last < Space(f)
    ensures var bs := Summary(first, last, f);
      && |bs| > 0
      && AscendingBlocks(bs)
      && (forall a :: first <= a <= last <==> InSomeBlock(bs, a))
      && (forall i :: 0 <= i < |bs| ==> bs[i].family == f && LargestBlockAt(bs[i], last))
  {
    var bs := Summary(first, last, f);
    SummaryTiles(first, last, f);
    assert forall i :: 0 <= i < |bs| ==> LargestBlockAt(bs[i], last);
    TilesCoverExactly(bs, first, last);
  }

  /** `summarize_address_range` with its own checks, as a specification. */
  function SummarizeSpec(first: Address, last: Address): Result<seq<Prefix>>
  {
    if first.family != last.family then Err(VersionMismatch)
    else if first.value > last.value then Err(InvalidRange)
    else if last.value >= Space(last.family) then Err(InvalidAddress)
    else Ok(Summary(first.value, last.value, first.family))
  }

  /** Moving the head of the remaining blocks to the emitted ones keeps their concatenation. */
  lemma EmitHead(done: seq<Prefix>, whole: seq<Prefix>, head: Prefix, rest: seq<Prefix>, cover: seq<Prefix>)
    requires done + whole == cover && whole == [head] + rest
    ensures (done + [head]) + rest == cover
  {
    assert (done + [head]) + rest == done + ([head] + rest);
  }

  /** The loop invariant of `SummarizeAddressRange` survives emitting one block. */
  lemma SummaryAdvance(done: seq<Prefix>, first: nat, last: nat, f: Family, cover: seq<Prefix>,
                       k: nat, done': seq<Prefix>, first': nat)
    requires first <= last < Space(f)
    requires done + Summary(first, last, f) == cover
    requires k == BlockBits(first, last, Width(f))
    requires done' == done + [Prefix(f, first, Width(f) - k)] && first' == first + Pow2(k)
    ensures done' + Summary(first', last, f) == cover
  {
    SummaryUnfold(first, last, f);
    EmitHead(done, Summary(first, last, f), Prefix(f, first, Width(f) - k), Summary(first', last, f), cover);
  }

  /** Once `first` has passed `last`, the blocks emitted so far are the whole cover. */
  lemma SummaryDone(done: seq<Prefix>, first: nat, last: nat, f: Family, cover: seq<Prefix>)
    requires first > last && last < Space(f)
    requires done + Summary(first, last, f) == cover
    ensures done == cover
  {
    SummaryEmpty(first, last, f);
  }

  /** The greedy loop of `summarize_address_range`. */
  method SummarizeAddressRange(first: Address, last: Address) returns (r: Result<seq<Prefix>>)
    requires ValidAddress(first) && ValidAddress(last)
    ensures r == SummarizeSpec(first, last)
  {
    if first.family != last.family {
      return Err(VersionMismatch);
    }
    if first.value > last.value {
      return Err(InvalidRange);
    }
    var f := first.family;
    var width := Width(f);
    var allOnes := AllOnes(f);
    var firstInt: nat := first.value;
    var lastInt := last.value;
    ghost var cover := Summary(firstInt, lastInt, f);
    assert SummarizeSpec(first, last) == Ok(cover);
    var blocks: seq<Prefix> := [];
    while firstInt <= lastInt
      invariant blocks + Summary(firstInt, lastInt, f) == cover
      decreases lastInt + 1 - firstInt
    {
      ghost var done, before := blocks, firstInt;
      var nbits := BlockBits(firstInt, lastInt, width);
      blocks := blocks + [Prefix(f, firstInt, width - nbits)];
      firstInt := firstInt + Pow2(nbits);
      SummaryAdvance(done, before, lastInt, f, cover, nbits, blocks, firstInt);
      if firstInt - 1 == allOnes {
        break;
      }
    }
    SummaryDone(blocks, firstInt, lastInt, f, cover);
    return Ok(blocks);
  }

  /** One entry of the list `ip_range_to_cidr` returns: a CIDR block or an `"Error: ..."` string. */
  datatype CidrEntry = Block(prefix: Prefix) | ErrorEntry(error: Error)

  function Blocks(ps: seq<Prefix>): (es: seq<CidrEntry>)
    ensures |es| == |ps|
    ensures forall i :: 0 <= i < |ps| ==> es[i] == Block(ps[i])
  {
    seq(|ps|, i requires 0 <= i < |ps| => Block(ps[i]))
  }

  lemma BlocksSingle(p: Prefix)
    ensures Blocks([p]) == [Block(p)]
  {
  }

  /**
   * `ip_range_to_cidr(start_ip, end_ip)`. A `ValueError` (a text that is no
   * address, or start after end) is caught and returned as a one-element
   * error list; anything else comes from `SummarizeInts`.
   */
  function IpRangeToCidr(startIp: AddressText, endIp: AddressText): Result<seq<CidrEntry>>
  {
    var start, end := ParseAddress(startIp), ParseAddress(endIp);
    if start.Err? || end.Err? then Ok([ErrorEntry(InvalidAddress)])
    else if start.value.value > end.value.value then Ok([ErrorEntry(InvalidRange)])
    else SummarizeInts(start.value.value, end.value.value)
  }

  /**
   * The call `summarize_address_range(ip_address(s), ip_address(e))` inside
   * `ip_range_to_cidr`: the addresses are rebuilt from their integers, so
   * the family is the one the integers select, and when the two rebuilt
   * addresses are of different families the `TypeError` raised escapes the
   * `except ValueError` as `Err`.
   */
  function SummarizeInts(s: nat, e: nat): Result<seq<CidrEntry>>
  {
    match (AddressOfInt(s), AddressOfInt(e))
    case (Ok(a), Ok(b)) => EntriesOf(SummarizeSpec(a, b))
    case _ => Ok([ErrorEntry(InvalidAddress)])
  }

  /**
   * The entries for the outcome of `summarize_address_range`: its blocks, a
   * `ValueError` as a one-element error list, or the `TypeError` passed on.
   */
  function EntriesOf(r: Result<seq<Prefix>>): Result<seq<CidrEntry>>
  {
    match r
    case Ok(ps) => Ok(Blocks(ps))
    case Err(VersionMismatch) => Err(VersionMismatch)
    case Err(err) => Ok([ErrorEntry(err)])
  }

  /** The family `ip_address(n)` gives the integer n. */
  function FamilyOfInt(n: nat): Family
  {
    if n < Space(V4) then V4 else V6
  }

  /**
   * Every outcome of `ip_range_to_cidr`: an error entry for text that is no
   * address and for start after end; otherwise, when both ends fall on the
   * same side of 2^32, the greedy cover of [start, end] in the family the
   * integers select (whatever family the text was written in); and a
   * `TypeError` when they straddle 2^32.
   */
  lemma IpRangeToCidrOutcomes(startIp: AddressText, endIp: AddressText)
    ensures ParseAddress(startIp).Err? || ParseAddress(endIp).Err? ==>
      IpRangeToCidr(startIp, endIp) == Ok([ErrorEntry(InvalidAddress)])
    ensures ParseAddress(startIp).Ok? && ParseAddress(endIp).Ok? ==>
      var s, e := startIp.value, endIp.value;
      && (s > e ==> IpRangeToCidr(startIp, endIp) == Ok([ErrorEntry(InvalidRange)]))
      && (s <= e && FamilyOfInt(s) != FamilyOfInt(e) ==>
            IpRangeToCidr(startIp, endIp) == Err(VersionMismatch))
      && (s <= e && FamilyOfInt(s) == FamilyOfInt(e) ==>
            && e < Space(FamilyOfInt(e))
            && IpRangeToCidr(startIp, endIp) == Ok(Blocks(Summary(s, e, FamilyOfInt(e)))))
  {
    if ParseAddress(startIp).Ok? && ParseAddress(endIp).Ok? {
      var s, e := startIp.value, endIp.value;
      if s <= e {
        IntRangeToCidr(s, e);
      }
    }
  }

  /** The part of `ip_range_to_cidr` after parsing, for an ordered pair of integers below 2^128. */
  lemma IntRangeToCidr(s: nat, e: nat)
    requires s <= e < Space(V6)
    ensures FamilyOfInt(s) != FamilyOfInt(e) ==> SummarizeInts(s, e) == Err(VersionMismatch)
    ensures FamilyOfInt(s) == FamilyOfInt(e) ==>
      && e < Space(FamilyOfInt(e))
      && SummarizeInts(s, e) == Ok(Blocks(Summary(s, e, FamilyOfInt(e))))
  {
    var a, b := AddressOfInt(s).value, AddressOfInt(e).value;
    assert SummarizeInts(s, e) == EntriesOf(SummarizeSpec(a, b));
    if FamilyOfInt(s) != FamilyOfInt(e) {
      assert SummarizeSpec(a, b) == Err(VersionMismatch);
    } else {
      assert e < Space(b.family);
      assert SummarizeSpec(a, b) == Ok(Summary(s, e, FamilyOfInt(e)));
    }
  }

  /**
   * `ip_range_to_cidr` as evidently intended: the parsed addresses go to
   * `summarize_address_range` as they are, so each keeps the family it was
   * written in.
   */
  function IpRangeToCidrCorrected(startIp: AddressText, endIp: AddressText): Result<seq<CidrEntry>>
  {
    var start, end := ParseAddress(startIp), ParseAddress(endIp);
    if start.Err? || end.Err? then Ok([ErrorEntry(InvalidAddress)])
    else if start.value.value > end.value.value then Ok([ErrorEntry(InvalidRange)])
    else EntriesOf(SummarizeSpec(start.value, end.value))
  }

  /**
   * For a range written in one family, the corrected conversion covers
   * exactly the range with ascending largest blocks of that family.
   */
  lemma IpRangeToCidrCorrectedCovers(startIp: AddressText, endIp: AddressText)
    requires ParseAddress(startIp).Ok? && ParseAddress(endIp).Ok?
    requires startIp.family == endIp.family && startIp.value <= endIp.value
    ensures var f := startIp.family;
      var bs := Summary(startIp.value, endIp.value, f);
      && IpRangeToCidrCorrected(startIp, endIp) == Ok(Blocks(bs))
      && AscendingBlocks(bs)
      && (forall a :: startIp.value <= a <= endIp.value <==> InSomeBlock(bs, a))
      && (forall i :: 0 <= i < |bs| ==> bs[i].family == f)
  {
    IpRangeToCidrCorrectedOk(startIp, endIp);
    SummaryCorrect(startIp.value, endIp.value, startIp.family);
  }

  lemma IpRangeToCidrCorrectedOk(startIp: AddressText, endIp: AddressText)
    requires ParseAddress(startIp).Ok? && ParseAddress(endIp).Ok?
    requires startIp.family == endIp.family && startIp.value <= endIp.value
    ensures IpRangeToCidrCorrected(startIp, endIp) == Ok(Blocks(Summary(startIp.value, endIp.value, startIp.family)))
  {
  }

  /**
   * The two conversions agree on every range written in one family unless
   * it is an IPv6 range that reaches below 2^32.
   */
  lemma IpRangeToCidrAgrees(startIp: AddressText, endIp: AddressText)
    requires startIp.AddressText? && endIp.AddressText? && startIp.family == endIp.family
    requires startIp.family == V6 ==> startIp.value >= Space(V4)
    ensures IpRangeToCidr(startIp, endIp) == IpRangeToCidrCorrected(startIp, endIp)
  {
    var start, end := ParseAddress(startIp), ParseAddress(endIp);
    if start.Ok? && end.Ok? && startIp.value <= endIp.value {
      assert AddressOfInt(startIp.value) == start;
      assert AddressOfInt(endIp.value) == end;
    }
  }

  /**
   * The IPv6 range :: - ::ff comes back as the IPv4 block 0.0.0.0/24
   * instead of ::/120, which the corrected conversion gives.
   */
  lemma LowIpv6Range(first: AddressText, last: AddressText)
    requires first == AddressText(V6, 0) && last == AddressText(V6, 0xFF)
    ensures IpRangeToCidr(first, last) == Ok([Block(Prefix(V4, 0, 24))])
    ensures IpRangeToCidrCorrected(first, last) == Ok([Block(Prefix(V6, 0, 120))])
  {
    LowRangeAsWritten(first, last);
    LowRangeCorrected(first, last);
  }

  lemma LowRangeAsWritten(first: AddressText, last: AddressText)
    requires first.AddressText? && last.AddressText? && first.value == 0 && last.value == 0xFF
    ensures IpRangeToCidr(first, last) == Ok([Block(Prefix(V4, 0, 24))])
  {
    var s, e := first.value, last.value;
    IpRangeToCidrOutcomes(first, last);
    assert FamilyOfInt(s) == V4 && FamilyOfInt(e) == V4;
    LowBlock(s, e, V4);
    var p := Prefix(V4, s, 24);
    BlocksSingle(p);
  }

  lemma LowRangeCorrected(first: AddressText, last: AddressText)
    requires first.AddressText? && last.AddressText? && first.family == last.family
    requires first.value == 0 && last.value == 0xFF
    ensures IpRangeToCidrCorrected(first, last) == Ok([Block(Prefix(first.family, 0, Width(first.family) - 8))])
  {
    LowBlock(first.value, last.value, first.family);
    IpRangeToCidrCorrectedOk(first, last);
    var p := Prefix(first.family, first.value, Width(first.family) - 8);
    BlocksSingle(p);
  }

  /**
   * The IPv6 range :: - ::1:0:0 straddles 2^32: its ends are rebuilt as an
   * IPv4 and an IPv6 address and the conversion raises, where the corrected
   * one summarises it.
   */
  lemma StraddlingIpv6Range(first: AddressText, last: AddressText)
    requires first == AddressText(V6, 0) && last == AddressText(V6, 0x1_0000_0000)
    ensures IpRangeToCidr(first, last) == Err(VersionMismatch)
    ensures IpRangeToCidrCorrected(first, last).Ok?
  {
    IntRangeToCidr(first.value, last.value);
  }

  /** The addresses 0..255 of either family form the single block at 0 with 8 host bits. */
  lemma LowBlock(first: nat, last: nat, f: Family)
    requires first == 0 && last == 0xFF
    ensures last < Space(f)
    ensures Summary(first, last, f) == [Prefix(f, first, Width(f) - 8)]
  {
    Pow2Values();
    var w := Width(f);
    assert Log2(0x100) == 8;
    assert BlockBits(first, last, w) == 8;
    SummaryUnfold(first, last, f);
    SummaryEmpty(first + Pow2(8), last, f);
  }
}
