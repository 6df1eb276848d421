# RPKI hierarchy measurement and coverage extraction, modelled in Dafny

This project models the two pieces of pure logic in the RPKI measurement scripts.

**Overlap and covering analysis** (`rpki_hierarchy_measure.py`). This runs over a sequence of IPv4 ROA prefixes.
- The first pass is a fold. It keeps the union of every address seen (`all_ipaddresses`). It counts each block that meets that union (`count_overlap_no_hierarchy`) and records it in `roas_to_check`. Every block goes into `all_roas`.
- The second pass walks `roas_to_check` by index while extending it. For each entry it collects every other ROA block that covers it into an `overlap_list`. It appends every block the entry strictly contains to the worklist. It keeps each group that found a covering block (`overlapping_roas`).

**Marker-delimited extraction** (`rpki_coverage_and_validity.py`). This cuts the downloaded statistics page from just after a start marker up to the first end marker after it. It uses Python `str.find` and slice semantics, with `find`'s -1 left unchecked. The same cut is applied with the IPv6 and with the IPv4 start marker.

How the model represents things:
- **Blocks.** A block is `Block(addr, len)` in prefix/length notation (RFC 4632, section 3.1). It stands for the address interval `[First, First + 2^(32-len))`, where `First` is `addr` with its host bits cleared (computed bit by bit, as `addr >> k << k` with k = 32 - len).
- **Address sets.** netaddr's `IPSet` becomes a `set<nat>` of addresses below 2^32. `&`, `|`, `issubset` and `issuperset` become the set operations.
- **Equality.** IPNetwork equality compares the first and last address, so `entry_1 == entry_2` is modelled as range equality (`Cidr.Same`), not as equality of the datatype values.
- **Termination.** The growing worklist terminates by an explicit measure: the sum of (N+1)^(33-len) over the pending entries, where N = |all_roas|. Each pushed block has a strictly longer prefix than the entry that pushed it, and at most N blocks are pushed per entry.

Modules: `Cidr` (blocks and interval facts), `OverlapPass` (first pass), `CoveringPass` (second pass), `HierarchyMeasure` (both passes together), `PyStr` (`find` and slicing) and `CoverageScrape` (the extraction).

## Model

| member | source | states |
|---|---|---|
| Cidr.First | rpki_hierarchy_measure.py:23 | the network address of `IPNetwork(row[1])` is at most the written address, the written address lies inside the block, and the block ends within the IPv4 space |
| Cidr.FirstIsMultiple | rpki_hierarchy_measure.py:23 | the network address is the block's index among aligned blocks of its length times the block size, so blocks of one length tile the address space |
| Cidr.AddressesPrefixMatch | rpki_hierarchy_measure.py:23 | an IPv4 address is in `IPSet(IPNetwork(row[1]))` exactly when clearing its host bits gives the block's network address, the prefix match of RFC 4632 |
| Cidr.Same | rpki_hierarchy_measure.py:38 | `entry_1 == entry_2` holds exactly when the two networks cover the same set of addresses |
| Cidr.SameIffKey | rpki_hierarchy_measure.py:38 | two networks are `==` exactly when they have the same network address and the same prefix length |
| Cidr.SubsetIffContains | rpki_hierarchy_measure.py:40-42 | `IPSet(a).issubset(IPSet(b))` holds exactly when a's interval lies within b's bounds |
| Cidr.IntersectIffOverlaps | rpki_hierarchy_measure.py:23-24 | two blocks' address sets meet exactly when their intervals overlap |
| Cidr.StrictlyInsideLengthens | rpki_hierarchy_measure.py:42-43 | a block strictly inside another (contained and not equal) has a strictly longer prefix |
| Cidr.NestedOrDisjoint | rpki_hierarchy_measure.py:40-42 | any two CIDR blocks are nested one way or the other, or share no address |
| OverlapPass.FlaggedAreRows | rpki_hierarchy_measure.py:26 | every block put on `roas_to_check` in the first pass is one of the input rows |
| OverlapPass.StepAgainstRows | rpki_hierarchy_measure.py:23-29 | given that `all_ipaddresses` holds exactly the addresses of `all_roas`, one row is appended to `roas_to_check` and counted exactly when it overlaps a block already in `all_roas`, and afterwards `all_ipaddresses` again holds exactly the addresses of `all_roas` |
| OverlapPass.Fold | rpki_hierarchy_measure.py:14-29 | after the first n rows, `all_roas` is exactly those rows in order, and the count equals the length of `roas_to_check`, which is at most n |
| OverlapPass.MeetsUnionIffOverlapsEarlier | rpki_hierarchy_measure.py:23-24 | intersecting the union of the earlier rows' addresses is the same as overlapping some earlier row |
| OverlapPass.FoldInvariant | rpki_hierarchy_measure.py:14-29 | after every prefix of the rows: `all_roas` is that prefix in order; `all_ipaddresses` (empty at the start) holds exactly the addresses of those rows; `roas_to_check` is exactly the rows that overlap an earlier row, in input order; the count equals its length |
| OverlapPass.UnionGrows | rpki_hierarchy_measure.py:29 | adding one row's addresses to the union of the rows before it gives exactly the union of the rows so far |
| OverlapPass.CountedIffOverlapsEarlier | rpki_hierarchy_measure.py:23-26 | a row raises the count by one, and is appended to `roas_to_check`, if and only if it overlaps an earlier row; otherwise neither changes; the first row is never counted |
| OverlapPass.OverlapsIffNested | rpki_hierarchy_measure.py:23-25 | a row overlaps an earlier row exactly when it contains or is contained in an earlier row |
| OverlapPass.FirstPass | rpki_hierarchy_measure.py:8-29 | the whole first pass: `all_roas` equals the input; the address set is the union of all rows; `roas_to_check` lists the overlapping rows in order; the count is its length |
| CoveringPass.ScanRoas | rpki_hierarchy_measure.py:37-43 | the inner loop keeps, as subsequences of `all_roas` in their order, only blocks strictly covering the entry (subset branch) and only blocks strictly inside it (superset branch) |
| CoveringPass.CoversIffStrictlyInside | rpki_hierarchy_measure.py:38-42 | the subset branch selects exactly the blocks that strictly cover the entry; the superset branch selects exactly the blocks strictly inside it |
| CoveringPass.ScanComplete | rpki_hierarchy_measure.py:37-43 | every `all_roas` block strictly covering the entry is kept, and every block strictly inside it is pushed, each as often as it occurs in `all_roas` |
| CoveringPass.Group | rpki_hierarchy_measure.py:36-41 | `overlap_list` starts with the entry, and every later element is an `all_roas` block strictly covering the entry |
| CoveringPass.GroupMeaning | rpki_hierarchy_measure.py:36-41 | `overlap_list` starts with the entry; the rest are exactly the `all_roas` blocks strictly covering the entry, in order and with multiplicity, each with a shorter prefix; the list is longer than one iff such a block exists |
| CoveringPass.PushedMeaning | rpki_hierarchy_measure.py:42-43 | the blocks appended to the worklist are exactly the `all_roas` blocks strictly inside the entry, each with a longer prefix, and at most as many as `all_roas` |
| CoveringPass.GroupsWellFormed | rpki_hierarchy_measure.py:44-45 | every recorded group has more than one element, starts with a worklist entry and is that entry's `overlap_list` |
| CoveringPass.GroupsOf | rpki_hierarchy_measure.py:34-45 | `overlapping_roas` has at most one group per worklist entry, and every group holds more than one block |
| CoveringPass.LongGroupRecorded | rpki_hierarchy_measure.py:44-45 | every worklist entry whose `overlap_list` is longer than one has that list recorded |
| CoveringPass.GroupRecordedIffCovered | rpki_hierarchy_measure.py:36-45 | a worklist entry's group is recorded if and only if some ROA block strictly covers it |
| CoveringPass.PotentialDrops | rpki_hierarchy_measure.py:42-43 | replacing an entry by at most N blocks with longer prefixes lowers the termination measure |
| CoveringPass.PotentialStep | rpki_hierarchy_measure.py:35-43 | examining one worklist entry lowers the measure of the entries still pending, so the growing loop ends |
| CoveringPass.PushKeepsDescent | rpki_hierarchy_measure.py:42-43 | after an append, every appended worklist block is a ROA block strictly inside an earlier, already examined entry with a shorter prefix |
| CoveringPass.GroupsStep | rpki_hierarchy_measure.py:44-45 | examining entry i extends `overlapping_roas` by that entry's group exactly when the group is longer than one |
| CoveringPass.PushedUpTo | rpki_hierarchy_measure.py:42-43 | the blocks appended while examining the first i worklist entries are all `all_roas` blocks |
| CoveringPass.PushedUpToPrefix | rpki_hierarchy_measure.py:35-43 | what the first i entries append depends only on those entries, not on anything appended later |
| CoveringPass.PushedUpToStep | rpki_hierarchy_measure.py:35-43 | examining entry i adds exactly that entry's pushed blocks to what the first i entries appended |
| CoveringPass.PushedStep | rpki_hierarchy_measure.py:35-43 | if the worklist is `roas_to_check` followed by what the first i entries pushed, appending entry i's pushed blocks keeps it so for i + 1 |
| CoveringPass.CoverStep | rpki_hierarchy_measure.py:35-45 | examining one entry keeps the loop state: the worklist stays `roas_to_check` plus every push so far, appended blocks still descend from earlier entries, the entry's group is recorded if longer than one, and the pending measure falls |
| CoveringPass.CollectCovering | rpki_hierarchy_measure.py:34-45 | the final worklist is exactly `roas_to_check` followed, in order, by every block each examined entry appended, and every entry is examined; `overlapping_roas` is the group of each worklist entry that has a cover, in worklist order; each appended block is a ROA strictly inside an earlier entry with a shorter prefix |
| HierarchyMeasure.MeasureHierarchy | rpki_hierarchy_measure.py:8-49 | the two passes together: the count is the number of overlapping rows; the final worklist is exactly those rows followed by every block the second pass appended, in order; `overlapping_roas` is the covering groups of the final worklist, each of length more than one |
| PyStr.Find | rpki_coverage_and_validity.py:34-35 | `str.find` returns the first occurrence of the pattern, or -1 exactly when the pattern does not occur |
| PyStr.Slice | rpki_coverage_and_validity.py:37 | a Python slice, with negative and out-of-range bounds normalised, is always a contiguous piece of the string |
| PyStr.OccursInSuffix | rpki_coverage_and_validity.py:35 | an occurrence in `text[sp:]` at j is exactly an occurrence in `text` at sp + j |
| CoverageScrape.StartPosition | rpki_coverage_and_validity.py:34 | the start position is non-negative; it is just past the first occurrence of the marker, or `len(marker) - 1` when the marker is absent |
| CoverageScrape.CutFound | rpki_coverage_and_validity.py:35-37 | with an end marker at or after the start position, the cut is the text from the start position up to its first such occurrence |
| CoverageScrape.CutMissing | rpki_coverage_and_validity.py:35-37 | with no end marker after the start position, the slice `[s:s-1]` is empty for s >= 1 and is the text without its last character for s = 0 |
| CoverageScrape.Cut | rpki_coverage_and_validity.py:35-37 | from the start position, the slice up to the end marker that `find` locates in the rest of the page, always a contiguous substring of the page |
| CoverageScrape.CutAvoidsEnd | rpki_coverage_and_validity.py:35-37 | the cut never contains a whole non-empty end marker |
| CoverageScrape.ExtractBetween | rpki_coverage_and_validity.py:34-37 | the extracted data is always a contiguous substring of the page and never contains a complete non-empty end marker |
| CoverageScrape.ExtractBetweenMarkers | rpki_coverage_and_validity.py:34-37 | with both markers present in order, the result is exactly the text strictly between the first start marker and the next end marker |
| CoverageScrape.ExtractStartsAfterMarker | rpki_coverage_and_validity.py:34 | with the start marker present, the result is a prefix of the text just after its first occurrence |
| CoverageScrape.ExtractEndMissing | rpki_coverage_and_validity.py:35-37 | with no end marker after the start position, the result is empty when that position is past 0, and the text without its last character when it is 0 |
| CoverageScrape.StartAtZero | rpki_coverage_and_validity.py:34 | the start position is 0 exactly when the start marker is empty, or is one character long and absent |
| CoverageScrape.ExtractStartMissing | rpki_coverage_and_validity.py:34-37 | with the start marker absent, no error is raised; the cut runs from offset `len(marker) - 1` up to the next end marker |
| CoverageScrape.Ipv6Data | rpki_coverage_and_validity.py:34-37 | `ipv6_data` is a substring of the page without `DataEnd`; because the IPv6 start marker is long, it is empty when no end marker follows the start position |
| CoverageScrape.Ipv4Data | rpki_coverage_and_validity.py:40-43 | `ipv4_data` is the same extraction with the IPv4 start marker and the same end marker, with the same guarantees |

## Left out

- CSV reading, the header skip and the random sampled `print` (rpki_hierarchy_measure.py:16-22, 27, 31, 48-49): these are I/O and randomness. The input is a sequence of already-parsed blocks.
- CIDR text parsing: it happens inside netaddr, which is not part of this model. Only valid IPv4 networks are modelled (`Cidr.Valid`). Mixing IPv4 and IPv6 blocks is out of scope.
- netaddr internals: only the interval semantics of a single network's `IPSet` and IPNetwork's range equality are assumed.
- The page download (`urllib2.urlopen`, rpki_coverage_and_validity.py:30-31): network I/O. The page is a parameter.
- Plotting and its configuration (rpki_coverage_and_validity.py:7-17, 54-55): output only.
- The hard-coded coverage dictionaries and their printing (rpki_coverage_and_validity.py:46-52): these are constants that are never computed. The unused coverage start markers (lines 22 and 25) are not modelled.
- CoveringPass.ScanRoas: its own contract states only that what it keeps is correct. That it keeps every strict cover and every block strictly inside, with full multiplicity, is the separate lemma `CoveringPass.ScanComplete`, which keeps the multiset facts out of every proof that unfolds the scan.
- The page is modelled as a `string`. The source's Python 2 byte string is treated as a sequence of characters.
- RPKI_announcements/get_rpki_announcements.py: a download plus a date-stamped file name, which is I/O and a clock read.
- test.py: a demonstration of the third-party radix library with no logic of its own.
- Trie insertion and search, snapshot diffing, cross-snapshot aggregation and duplicate/overlap issuer accounting: none of these is implemented in the scripts.
