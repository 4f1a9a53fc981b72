# Address-space gaps of Azure virtual networks

A Dafny model of the address arithmetic in `main.py` of az-cookbook:

- `find_vnet_gaps` works on every virtual network in turn. It parses the network's address spaces and its subnets' address prefixes, with host bits cleared. Then it sweeps each address space, reporting the ranges between the sorted subnets as gaps (which, with nested subnets, can include used addresses; see "## Findings"). It stores one record per gap in `vnet["gaps"]`. A record holds the gap and its `ip_range_to_cidr` list.
- `count_ip_addresses` gives the size of a CIDR block, or 0 for text that is not a strict network.
- `ip_range_to_cidr` turns an inclusive address range into CIDR blocks. It delegates to Python's `ipaddress.summarize_address_range`.

The parts of Python's `ipaddress` module that the core relies on are modelled after CPython's implementation. Addresses and networks are a family (IPv4/IPv6) and unbounded integers. `ip_network(strict=False)` clears host bits, and `strict=True` rejects them. `ip_address(int)` picks IPv4 for every value below 2^32. `overlaps` tests whether either network holds an end point of the other. `sort` is stable. `summarize_address_range` is the greedy largest-aligned-block loop. The exceptions are a `Result` error:

- `ValueError` and its subclasses;
- the `TypeError` that mixing families raises.

Modules, in dependency order:

- `Bits`: powers of two, alignment (low bits zero), clearing low bits, trailing zeros, `bit_length`.
- `Addresses`: families, addresses, prefixes, parsing, `count_ip_addresses`, containment and overlap.
- `RangeSummary`: `summarize_address_range` as a loop proved against a specification function, and `ip_range_to_cidr`.
- `NetworkSort`: the stable sort by network address.
- `GapSweep`: the sweep over one address space, as written and corrected.
- `VnetGaps`: `find_vnet_gaps` over a list of mutable network objects (class `Vnet`).
- `CorrectedGaps`: the whole computation with the corrections of the findings below.

## Model

| member | source | states |
|---|---|---|
| Bits.ClearLowBits | main.py:34 | the network address of a non-strict parse is aligned, is at most the written address, and lies less than one block below it |
| Bits.ClearLowBitsFixed | main.py:80 | clearing the host bits changes nothing exactly when they are already zero, which is what a strict parse demands |
| Bits.AlignedIffMod | main.py:80 | "host bits zero" is the same as being a multiple of the block size |
| Bits.AlignedBlockUnique | main.py:34 | the aligned block of a given size that holds an address is unique |
| Bits.Log2Bounds | main.py:107-109 | `bit_length() - 1` of m is the exponent of the largest power of two not above m |
| Bits.TrailingZerosExact | main.py:107-109 | the trailing zero count is exact: one more zero bit would not be aligned |
| Bits.RightZeroBits | main.py:107-109 | defines `_count_righthand_zero_bits(n, width)`: the trailing zeros of n, capped at the width, and the whole width for 0; the result never exceeds the width |
| Addresses.SpaceIsPow2 | main.py:107-109 | an address family holds 2^32 (IPv4) or 2^128 (IPv6) addresses |
| Addresses.ValidPrefixIff | main.py:33-41 | a network `ip_network` builds has a length within the family, a network address that is a multiple of its size, and no address past the family |
| Addresses.ParseAddress | main.py:100-101 | `ip_address(text)` succeeds exactly for an address text whose value is inside its family, and keeps family and value |
| Addresses.AddressOfInt | main.py:108 | `ip_address(n)` succeeds exactly for n < 2^128; the address is IPv4 exactly when n < 2^32 |
| Addresses.ParseNetwork | main.py:33-41 | `ip_network` succeeds exactly for a valid address and prefix length (and, when strict, no host bits set); the network is valid, keeps family and length, and holds the written address |
| Addresses.NonStrictParseCanonical | main.py:33-41 | a non-strict parse yields the one valid network of that length holding the written address, with 2^(width - len) addresses |
| Addresses.CountIpAddresses | main.py:69-84 | the result is 2^(width - len) for a strict network, and 0 exactly when the strict parse raises |
| Addresses.ContainsIffInRange | main.py:47 | `a in network` holds exactly for the addresses of the family between network and broadcast address |
| Addresses.OverlapsIffIntersect | main.py:47 | `overlaps` holds exactly for networks of one family whose address ranges intersect |
| RangeSummary.BlockBitsLargest | main.py:107-109 | the block size chosen at `first` is aligned and fits; doubling it would misalign it, overrun the range, or exceed the family |
| RangeSummary.BlockBits | main.py:107-109 | defines the block size exponent the loop picks at `first`: the smaller of the trailing zeros of `first` and `(last - first + 1).bit_length() - 1`, never more than the width; `BlockBitsLargest` states what it means |
| RangeSummary.HeadBlockLargest | main.py:107-109 | the block emitted at `first` is the largest valid block there, ending at first + 2^k - 1 |
| RangeSummary.SummaryStep | main.py:107-109 | the cover is the largest block at `first` followed by the cover of the rest |
| RangeSummary.SummaryTiles | main.py:107-109 | the greedy blocks tile the range without holes, each the largest that fits where it starts |
| RangeSummary.TilesCoverExactly | main.py:107-109 | blocks that tile a range are ascending and hold exactly its addresses |
| RangeSummary.SummaryCorrect | main.py:107-109 | the summary of a non-empty range is non-empty, ascending, of the range's family, each block largest at its start, and covers exactly the range |
| RangeSummary.SummaryAdvance | main.py:107-109 | emitting one block keeps the loop invariant "emitted blocks + cover of the rest = cover of the whole range" |
| RangeSummary.SummaryDone | main.py:107-109 | when the loop ends the emitted blocks are the whole cover |
| RangeSummary.SummarizeAddressRange | main.py:107-109 | the greedy loop (with its break at the family's last address) returns the specified cover, or the error for mixed families or an inverted range |
| RangeSummary.Blocks | main.py:105-106 | the result list holds one entry per block, in order |
| RangeSummary.IpRangeToCidrOutcomes | main.py:88-112 | an error entry for a bad address and for start after end; a `TypeError` when the ends fall on different sides of 2^32; otherwise the cover of the range in the family the integers select |
| RangeSummary.IntRangeToCidr | main.py:105-110 | for ordered integers below 2^128: the cover of [s, e] in the integers' family, or a `TypeError` when they straddle 2^32 |
| RangeSummary.IpRangeToCidrCorrectedCovers | main.py:105-110 | the corrected conversion covers exactly a same-family range with ascending blocks of that family |
| RangeSummary.IpRangeToCidrCorrectedOk | main.py:105-110 | the corrected conversion of an ordered same-family range is the cover in that family |
| RangeSummary.IpRangeToCidrAgrees | main.py:105-110 | as written and corrected agree on every same-family range, except IPv6 ranges starting below 2^32 |
| RangeSummary.LowIpv6Range | main.py:108 | `::`–`::ff` becomes IPv4 `0.0.0.0/24` as written, and `::/120` when corrected |
| RangeSummary.LowRangeAsWritten | main.py:108 | addresses 0–255 of either family come back as `0.0.0.0/24` |
| RangeSummary.LowRangeCorrected | main.py:108 | addresses 0–255 come back as one block with 8 host bits in their own family |
| RangeSummary.StraddlingIpv6Range | main.py:108 | `::`–`::1:0:0` raises `TypeError` as written; the corrected conversion succeeds |
| RangeSummary.LowBlock | main.py:107-109 | the cover of 0–255 is the single block at 0 with 8 host bits |
| NetworkSort.InsertSorted | main.py:48 | inserting into a sorted list keeps it sorted by network address |
| NetworkSort.InsertPermutes | main.py:48 | insertion adds exactly the new element |
| NetworkSort.SortSorted | main.py:48 | the sorted list is ordered by network address and is a permutation of the input |
| NetworkSort.SortMembers | main.py:48 | sorting keeps the length and the members |
| NetworkSort.WithNetworkMembers | main.py:48 | the networks with a given network address are exactly those members of the list |
| NetworkSort.InsertStable | main.py:48 | insertion keeps the relative order of networks with equal keys |
| NetworkSort.SortStable | main.py:48 | the sort is stable: networks with the same network address keep their order |
| GapSweep.RelevantSubnetsMembers | main.py:47 | the filter keeps exactly the subnets that overlap the address space |
| GapSweep.SweepSpace | main.py:45-59 | filtering, sorting and sweeping one space gives its specified gaps or the overflow error |
| GapSweep.SweepSorted | main.py:50-59 | the loop with its assigned cursor and trailing gap returns the gaps of the sweep, or raises at a subnet ending at the family's last address |
| GapSweep.SweepRaises | main.py:55 | a subnet at the top of the family makes the sweep raise |
| GapSweep.SweepStep | main.py:52-55 | one subnet step keeps the loop invariant |
| GapSweep.TopInTail | main.py:52-55 | past a subnet not at the top, the rest raises exactly when the whole did |
| GapSweep.SweepEnd | main.py:57-59 | the trailing gap completes the sweep |
| GapSweep.GapsFromWithin | main.py:50-59 | every gap recorded is a non-empty range of the family between the space start and end |
| GapSweep.SpaceGapsWithin | main.py:45-59 | every gap of a space lies inside the space |
| GapSweep.SpaceGapsFails | main.py:52-55 | the sweep raises, with overflow, exactly when an overlapping subnet ends at the family's last address |
| GapSweep.GapsCorrectedWithin | main.py:50-59 | the corrected gaps are ascending, non-empty, of the family, and between cursor and end |
| GapSweep.CorrectedStepWithin | main.py:52-55 | one corrected step keeps the gaps ascending and within bounds |
| GapSweep.GapsCorrectedExact | main.py:50-59 | over sorted subnets the corrected gaps hold exactly the addresses no subnet holds |
| GapSweep.SweepOrderMembers | main.py:47-48 | the subnets swept are sorted and are exactly those of the family meeting the space |
| GapSweep.SpaceGapsCorrectedExact | main.py:45-59 | the corrected gaps of a space are ascending, inside it, and hold exactly its addresses no subnet holds, for any subnets |
| GapSweep.GapsFromAgrees | main.py:50-59 | over pairwise disjoint sorted subnets, assigning the cursor equals keeping the furthest end |
| GapSweep.SpaceGapsAgree | main.py:45-59 | for disjoint subnets, the sweep as written gives the corrected gaps whenever it does not raise |
| GapSweep.SpaceGapsExact | main.py:45-59 | for disjoint subnets, the gaps as written are ascending and hold exactly the free addresses |
| GapSweep.NestedSubnetGap | main.py:52-55 | a /28 nested in a /25 makes the sweep report the used addresses 10.0.0.32–10.0.0.127 as free |
| GapSweep.NestedValues | main.py:52-55 | the nested example's networks are valid and not at the top of the family |
| GapSweep.NestedShape | main.py:52-55 | for two overlapping subnets, one nested in an earlier one starting with the space, the sweep resumes after the nested one; the corrected sweep resumes after the outer one |
| GapSweep.NestedAsWritten | main.py:52-55 | the assigned cursor moves back to the nested subnet's end |
| GapSweep.NestedCorrected | main.py:52-55 | the corrected cursor stays at the outer subnet's end |
| GapSweep.SweepOrderOfTwo | main.py:47-48 | two overlapping subnets already in order are swept in that order |
| GapSweep.TopSubnetRaises | main.py:55 | 255.255.255.0/24 as its own subnet makes the sweep raise, where the corrected sweep finds no gap |
| VnetGaps.Vnet.constructor | main.py:138-164 | a network dictionary holds its address prefixes and subnets and starts with no gaps |
| VnetGaps.ParseNetworksAll | main.py:33-41 | the comprehension succeeds exactly when every text is a network, then holds the parsed valid networks in order, and otherwise raises `ValueError` |
| VnetGaps.SubnetPrefixesMembers | main.py:37-41 | a text is among the flattened subnet prefixes exactly when some subnet lists it |
| VnetGaps.AllSpaceGapsSnoc | main.py:45-59 | sweeping one more space appends its gaps or raises its error |
| VnetGaps.AllSpaceGapsStops | main.py:45-59 | once a space raises, the later spaces are not swept |
| VnetGaps.VnetGapListParsed | main.py:33-59 | once both parses succeed, the gap list is the sweep of all spaces |
| VnetGaps.CollectGaps | main.py:33-59 | the loop over address spaces returns the specified gap list or the first error |
| VnetGaps.NetworkGaps | main.py:33-64 | one network's records are the specified ones, or the first error |
| VnetGaps.FindVnetGaps | main.py:25-66 | the same list comes back with every network's `gaps` replaced by its records; when network k raises, those before it are updated and the rest untouched |
| VnetGaps.GapRecordOfCovers | main.py:62-64 | a gap's record raises exactly when the gap straddles 2^32; otherwise its entries are the ascending cover of the gap in the integers' family |
| VnetGaps.GapTextRoundTrip | main.py:54-63 | formatting a gap and splitting it again gives back its two addresses |
| VnetGaps.GapRecordsAll | main.py:62-64 | the records are built gap by gap and raise exactly when a gap straddles 2^32 |
| VnetGaps.AllSpaceGapsMembers | main.py:43-59 | the network's gaps are exactly the gaps of its spaces, none of which raised |
| VnetGaps.BlocksCover | main.py:105-106 | the entry list holds an address exactly when one of its blocks does |
| VnetGaps.RecordCoversGap | main.py:62-64 | a record's entries are blocks that cover exactly its gap, in the gap's family unless it is IPv6 below 2^32 |
| VnetGaps.VnetGapsParts | main.py:33-64 | a network that does not raise has valid gaps inside its spaces and one record per gap |
| VnetGaps.RecordSoundAt | main.py:33-64 | each record of such a network is sound |
| VnetGaps.GapRecordSound | main.py:62-64 | a valid gap inside a space gives a sound record |
| VnetGaps.VnetGapsSound | main.py:25-66 | every record stored lies in an address space, and its blocks cover exactly its gap |
| VnetGaps.GapOfRecord | main.py:63 | a record holds its own gap |
| VnetGaps.RecordGapUncovered | main.py:43-64 | for disjoint subnets, an address in a recorded gap is in no subnet |
| VnetGaps.GapUncovered | main.py:45-59 | for disjoint subnets, an address in a gap of a space is in no subnet |
| VnetGaps.UncoveredInGap | main.py:45-59 | for disjoint subnets, a free address of a space lies in one of its gaps |
| VnetGaps.UncoveredInRecord | main.py:43-64 | for disjoint subnets, a free address of a space lies in some record's gap |
| VnetGaps.VnetGapsExact | main.py:32-64 | for disjoint subnets, the records hold, in every address space, exactly the addresses no subnet holds |
| CorrectedGaps.AllSpaceGapsCorrectedMembers | main.py:45-59 | the corrected gaps of a network are exactly those of its spaces |
| CorrectedGaps.CidrCorrectedCovers | main.py:62-64 | the corrected conversion of a gap never raises; its blocks are of the gap's family and cover exactly the gap |
| CorrectedGaps.RecordsCorrected | main.py:62-64 | one record per gap, in order, holding the gap and its corrected entries |
| CorrectedGaps.CorrectedRecordSoundAt | main.py:45-64 | the record of a corrected gap of a space is sound |
| CorrectedGaps.CorrectedRecordsSound | main.py:45-64 | every corrected record is sound |
| CorrectedGaps.UncoveredInCorrectedRecord | main.py:45-64 | a free address of a space lies in some corrected record of its family |
| CorrectedGaps.CorrectedRecordUncovered | main.py:45-64 | an address in a corrected record is in no subnet of that family |
| CorrectedGaps.CorrectedGapUncovered | main.py:45-59 | an address in a corrected gap of a space is in no subnet of the gap's family |
| CorrectedGaps.VnetGapsCorrectedExact | main.py:32-64 | the corrected computation raises only for bad network text; otherwise every record is sound, and in every space the records hold exactly the addresses no subnet holds, overlapping subnets included |
| Bits.Log2 | main.py:107-109 | defines `m.bit_length() - 1`; `Log2Bounds` states what it means |
| Addresses.NumAddresses | main.py:81 | defines `num_addresses`, 2^(width - len); `CountIpAddresses` states it |
| Addresses.Broadcast | main.py:55 | defines `broadcast_address`, the network address plus `num_addresses` - 1; `NonStrictParseCanonical` states its value |
| Addresses.Contains | main.py:47 | defines `address in network` as the netmask test; `ContainsIffInRange` states what it means |
| Addresses.Overlaps | main.py:47 | defines `overlaps` as the four end-point tests; `OverlapsIffIntersect` states what it means |
| RangeSummary.Summary | main.py:107-109 | defines the blocks `summarize_address_range` yields; `SummaryCorrect` states their properties and `SummarizeAddressRange` is the loop proved against it |
| RangeSummary.SummarizeSpec | main.py:107-109 | defines `summarize_address_range` with its family and order checks; `SummarizeAddressRange` is proved equal to it |
| RangeSummary.FamilyOfInt | main.py:108 | defines the family `ip_address(n)` picks: IPv4 below 2^32; `AddressOfInt` states it |
| RangeSummary.IpRangeToCidr | main.py:88-112 | defines `ip_range_to_cidr`; `IpRangeToCidrOutcomes` states every outcome |
| RangeSummary.SummarizeInts | main.py:105-110 | defines the call that rebuilds addresses from integers and summarises them; `IntRangeToCidr` states it |
| RangeSummary.EntriesOf | main.py:105-112 | defines the returned list: blocks, an error entry for a caught `ValueError`, or the `TypeError` passed on; `IntRangeToCidr` states the outcomes |
| RangeSummary.IpRangeToCidrCorrected | main.py:105-110 | defines the corrected conversion, in the family the addresses were written in; `IpRangeToCidrCorrectedCovers` states it |
| NetworkSort.Insert | main.py:48 | defines one stable insertion step; `InsertSorted`, `InsertPermutes` and `InsertStable` state it |
| NetworkSort.SortByNetwork | main.py:48 | defines `sort(key=lambda x: x.network_address)`; `SortSorted`, `SortMembers` and `SortStable` state it |
| GapSweep.RelevantSubnets | main.py:47 | defines the overlap filter; `RelevantSubnetsMembers` states it |
| GapSweep.SweepOrder | main.py:47-48 | defines the filtered, sorted subnets; `SweepOrderMembers` states them |
| GapSweep.GapsFrom | main.py:50-59 | defines the gaps with the cursor assigned after each subnet; `GapsFromWithin` and `GapsFromAgrees` state them |
| GapSweep.EndsAtTop | main.py:55 | defines when `broadcast_address + 1` raises; `SpaceGapsFails` states it |
| GapSweep.Sweep | main.py:50-59 | defines the outcome of the loop, the gaps or the overflow error; `SweepSorted` is proved equal to it |
| GapSweep.SpaceGaps | main.py:45-59 | defines the gaps of one address space; `SweepSpace`, `SpaceGapsWithin`, `SpaceGapsFails` and `SpaceGapsExact` state them |
| GapSweep.NoRelevantSubnets | main.py:47 | with no subnet overlapping the space, the filter keeps nothing |
| GapSweep.SpaceGapsNoRelevant | main.py:50-59 | with no subnet overlapping the space, the one gap is the whole space, network address to broadcast address |
| GapSweep.SpaceGapsFullSubnet | main.py:50-59 | a subnet equal to the space, below the top of the family, leaves no gap |
| GapSweep.GapsCorrected | main.py:50-59 | defines the corrected sweep, whose cursor keeps the furthest end seen; `GapsCorrectedWithin` and `GapsCorrectedExact` state it |
| GapSweep.SpaceGapsCorrected | main.py:45-59 | defines the corrected gaps of one space; `SpaceGapsCorrectedExact` states them |
| VnetGaps.ParseNetworks | main.py:33-41 | defines the parse comprehensions; `ParseNetworksAll` states them |
| VnetGaps.SubnetPrefixes | main.py:37-41 | defines the flattened subnet prefixes; `SubnetPrefixesMembers` states them |
| VnetGaps.AllSpaceGaps | main.py:43-59 | defines the gaps of all spaces, space after space, or the first error; `AllSpaceGapsMembers` states them |
| VnetGaps.GapRecordOf | main.py:63 | defines one record `{"gap": gap, "cidr": ip_range_to_cidr(...)}`; `GapRecordOfCovers` states it |
| VnetGaps.GapRecords | main.py:62-64 | defines the records comprehension; `GapRecordsAll` states it |
| VnetGaps.VnetGapList | main.py:33-59 | defines one network's gaps or the error raised before the records; `CollectGaps` is proved equal to it |
| VnetGaps.VnetGapRecords | main.py:33-64 | defines what `vnet["gaps"]` becomes or what the network raises; `NetworkGaps` is proved equal to it, and `VnetGapsSound` and `VnetGapsExact` state it |
| CorrectedGaps.AllSpaceGapsCorrected | main.py:43-59 | defines the corrected gaps of all spaces; `AllSpaceGapsCorrectedMembers` states them |
| CorrectedGaps.CidrCorrected | main.py:63 | defines a gap's corrected CIDR list; `CidrCorrectedCovers` states it |
| CorrectedGaps.VnetGapRecordsCorrected | main.py:33-64 | defines the corrected records of one network; `VnetGapsCorrectedExact` states them |

## Left out

- Authentication, the Azure SDK clients and listing subscriptions and virtual networks (main.py:1-22 and 115-168) are I/O against a remote service. The model takes the list of networks as a parameter.
- All printing: the message in `count_ip_addresses` (main.py:83) and the report (main.py:173-182).
- The textual grammar of addresses and networks, and the formatting of gaps and blocks as strings. A text is modelled as the family and integer it spells, or as not an address.
- Of Python's `ipaddress` module, only what the core calls is modelled, after CPython's implementation: `ip_address`, `ip_network`, `num_addresses`, `broadcast_address`, `overlaps` and `summarize_address_range` (with `_count_righthand_zero_bits`, `bit_length() - 1` and the break at the family's last address). Address arithmetic other than `broadcast_address + 1`, and the rest of the module, are left out.
- The text of exception messages. The `"Error: ..."` entry carries the error kind, not its message.
- Keys of the network dictionaries other than `address_prefixes`, `subnets` and `gaps`; a missing `address_prefixes` or `subnets` key is an empty list.
- RangeSummary.SummaryCorrect: does not state that the cover has the fewest blocks. It states that each block is the largest aligned block that fits where it starts.
- VnetGaps.VnetGapsExact: the as-written exactness is stated only for pairwise disjoint subnets, because with nested subnets it is false (see the first finding).

## Findings

| source | as written | input that shows it | evidently intended | confidence | as-written member | corrected member |
|---|---|---|---|---|---|---|
| main.py:55 | the cursor is set to the end of the subnet just passed, even when an earlier subnet reached further | 10.0.0.0/24 with subnets 10.0.0.0/25 and 10.0.0.16/28: the gap 10.0.0.32 - 10.0.0.255 is reported, though 10.0.0.32-127 is in the /25 | the cursor never moves back; the only gap is 10.0.0.128 - 10.0.0.255 | high, not executed | GapSweep.NestedSubnetGap | CorrectedGaps.VnetGapsCorrectedExact |
| main.py:108 | the range is summarised from addresses rebuilt from integers, so an IPv6 range below 2^32 is summarised as IPv4 | `ip_range_to_cidr("::", "::ff")` gives `0.0.0.0/24` | the addresses keep their family: `::/120` | high, not executed | RangeSummary.LowIpv6Range | RangeSummary.IpRangeToCidrCorrectedCovers |
| main.py:108 | an IPv6 range that straddles 2^32 is rebuilt as one IPv4 and one IPv6 address; the `TypeError` this raises is not caught by `except ValueError` and aborts `find_vnet_gaps` | `ip_range_to_cidr("::", "::1:0:0")` | the range is summarised in IPv6 | high, not executed | RangeSummary.StraddlingIpv6Range | CorrectedGaps.VnetGapsCorrectedExact |
| main.py:55 | `broadcast_address + 1` raises for a subnet that ends at the family's last address, aborting `find_vnet_gaps` | address space 255.255.255.0/24 with the subnet 255.255.255.0/24 | the space simply has no gap | high, not executed | GapSweep.TopSubnetRaises | GapSweep.SpaceGapsCorrectedExact |

`FindVnetGaps` models the code as written. `CorrectedGaps` composes the two corrections, the corrected sweep (`GapSweep.GapsCorrected`) and the corrected conversion (`RangeSummary.IpRangeToCidrCorrected`), into the same computation for one network.
