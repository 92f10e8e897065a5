# Pola PCE: a verified model

Pola PCE is a Path Computation Element for segment routing. This project models five parts of it
and proves what they are for:

- **Path computation.** Dijkstra over the traffic-engineering database (TED) with `uint32` costs,
  early exit and back-pointers: what it is for (`Walks`), the invariant of its rounds
  (`ShortestPath`, `Rounds`), exactly which of several shortest paths it can return (`FoundPaths`),
  the objects and loops (`Cspf`), the loose-routing layer over it (`LooseRouting`, `LooseResults`),
  what is read off the TED's records (`NodeSegments`), and how far each depends on the TED
  (`CostLimits`, `CostOverflow`, `LooseCollapse`).
- **The TED.** A fold of node, link, prefix and SRv6 SID records, as a value (`Ted`,
  `TedConfluence`) and as the objects that are updated in place (`TedObjects`).
- **The SID index.** A lookup structure that agrees with quantifying over the TED, and knows every
  segment path computation emits (`SidIndex`, `SidAnswers`, `ComputedPaths`).
- **The PCEP codec.** TLVs (`Tlv`, `TlvFrames`, `TlvRoundTrip`, `TlvLoops`, `WireFormat`, `Utf8`),
  explicit routes (`Ero`, `EroRoundTrip`, `EroObjects`), objects (`Objects`, `ObjectRoundTrip`),
  messages with a length header (`Messages`, `Requests`, `RequestFields`), PCErr (`ErrorMessages`)
  and the grouping of PCRpt (`Reports`, `ReportFields`).
- **The session.** SRP-ID allocation (`SrpId`), the intent table under concurrency
  (`IntentMachine`, `SessionIntents`), the policy list and the reports that change it (`Sessions`,
  `SessionRuns`, `SessionUpdates`, `SessionAnswers`, `PolicyFields`, `SessionObjects`).

`Wrappers`, `Bytes`, `Netip` and `Segments` hold what the others share: results and errors, bytes
and big-endian integers, IP addresses and prefixes, segments.

Where the program changes things step by step there are two layers. A specification on values
(functions) carries the theorems; classes and loops in the program's own form are proved to compute
exactly that specification, so the theorems are theirs. What both layers call to read a record, to
build an object or to take a field from a report is pinned by itself, in terms of the records, bytes
and TLVs and without those functions. Go integers are `int` subset types with
wrap-around written out. A Go error is `None`, `Err` or `Rejected`; a slice access out of bounds or
a nil dereference, where the program has one, is the separate result `Crashed`.

What the theorems need from the environment is in their `requires`: a TED whose links are closed
(proved of every TED built by updates), router IDs other than `""`, and that costs fit 32 bits
where they are written (`CostsFit`, a condition on the TED alone).

Six properties turned out to hold only under a condition. For each there is the exact condition,
over all inputs, and where one can be named an input that fails:

- The order of TED records matters exactly when two records contradict each other
  (`ConfluentExactlyWhenRecordsAgree`).
- Loose routing collapses adjacent duplicates only at the seams between legs. Over the queries whose
  costs fit it always returns the collapse of the whole list if and only if no path that the
  computation can return enters two routers in a row that share a segment
  (`LooseRoutingCollapsesExactlyWhen`); where all costs fit, that is a condition on the last link of
  a shortest path (`RepeatsExactlyWhenALinkDoes`). On a line whose last two routers share a label the only result repeats it (`SharedLabelIsRepeated`);
  on a square with such a line the tie goes to the other way, and nothing repeats
  (`NearerWayWinsTheTie`).
- A computed path consists of indexed segments if and only if each router it enters has its SID in
  range, or its label is listed for something else (`PathIsKnownExactlyWhen`); on two routers, one
  without an SRGB, the only path has a segment that is not indexed (`EmittedButNotIndexed`).
- The path computation keeps its invariant over every run if and only if `CostsFit`: for every
  router that it may expand, the distance plus the metric of each link is below 2^32, or else some
  walk reaches the link's end for no more than is left of the sum when it wraps
  (`RunsAreSoundExactlyWhenCostsFit`; for one round, and in terms of its table,
  `RoundIsSoundExactlyWhenNoWrapIsWritten`). Otherwise it may prefer a dearer path
  (`WrappedCostHidesTheShortestPath`), or rewrite a settled router so that the back-pointers never
  reach the source (`BackPointersNeverReachTheSource`). A sum that wraps on the way back does no harm
  (`UnwrittenWrapFits`).
- The association of a policy is read as it was meant if and only if an IPv6 endpoint of the policy
  does not begin with twelve zero bytes, which make its originator look like IPv4
  (`AssociationSays`).
- Reading a message by object lengths gives back its objects if and only if each object's length
  is its size and its type has four bits (`MessageIsWalkedExactlyWhen`), which an SRv6 hop with
  addresses of the wrong size can break (`LenIsSizeExactlyWhen`).

`dafny verify dfyconfig.toml` checks the whole project.

## Model

| member | source | states |
|---|---|---|
| Cspf.Spf | pkg/cspf/cspf.go:123-147 | terminates; success is the node segments of a shortest path from source to destination (source left out, destination last) that visits no node twice and enters each router from the first of its best predecessors, whatever order the map is read in; "next node not found" means unreachable; a missing metric or SID is one of a reachable router |
| Cspf.CSPF | pkg/cspf/cspf.go:32-41 | the same for the exported function |
| Cspf.NodeMap.Search | pkg/cspf/cspf.go:129-144 | the loop ends, with the destination as a cheapest unsettled node or with an error that is explained |
| Cspf.NodeMap.NextNode | pkg/cspf/cspf.go:202-216 | some cheapest node that is not settled, whichever the map yields first; the sentinel exactly when all are settled |
| Cspf.NodeMap.UpdateNeighborCosts | pkg/cspf/cspf.go:161-184 | the relaxation of all links in order, up to the first error, with 32-bit addition |
| Cspf.NodeMap.BuildSegmentListFromPath | pkg/cspf/cspf.go:187-199 | following back-pointers reaches the source and lists the entered nodes' segments from source to destination |
| Cspf.ReverseInPlace | pkg/cspf/cspf.go:194-196 | the list in place, back to front |
| Walks.FailsExactlyWhenUnreachable | pkg/cspf/cspf.go:123-147 | with all metrics and node SIDs present, failure is exactly unreachability |
| NodeSegments.LinkMetricIsFirstOfType | pkg/table/ted.go:265-273 | a link's metric is the value of its first entry of the asked type, and missing exactly when it has none |
| NodeSegments.CostIsTheSum | pkg/cspf/cspf.go:161-171 | the cost of a walk is the sum of these |
| NodeSegments.MetricTypeDecides | pkg/table/ted.go:265-273 | on a triangle of links with both metrics the only shortest path is the direct one by IGP and the other one by TE |
| NodeSegments.LabelOfRouter | pkg/table/ted.go:181-209 | the segment of a router with Prefix-SIDs is the label SRGB base plus index of the first, in 32 bits |
| NodeSegments.SidOfRouter | pkg/table/ted.go:181-209 | that of one without them is its first SRv6 SID, which is also the local address, with that record's structure and uSID bit |
| NodeSegments.SegmentAtRouter | pkg/table/sr_policy.go:212-247 | another SID at the router has the same local address, structure and uSID bit (behaviors 48 and 57) |
| ShortestPath.ExpandKeepsInv | pkg/cspf/cspf.go:161-184 | settling a cheapest node keeps: costs are those of real links from nodes settled earlier (so back-pointers have no cycle even with zero metrics), settled nodes are relaxed and cheapest |
| ShortestPath.WalksAreBounded | pkg/cspf/cspf.go:123-147 | no walk costs less than the node it ends at, or than the cheapest node still waiting |
| ShortestPath.BackWalk | pkg/cspf/cspf.go:187-191 | the back-pointers of every node spell a walk of exactly its cost with strictly increasing settling rank |
| FoundPaths.NextIsDestination | pkg/cspf/cspf.go:135-137 | stopping early is right: a destination that is next has a shortest path behind it, and one that enters each router first |
| FoundPaths.ReturnedExactlyWhenFound | pkg/cspf/cspf.go:123-216 | a shortest path is what some run returns, for some order of the map, if and only if no shortest walk enters one of its routers from a router that is nearer than its predecessor on the path or lies on the path before it, and all routers nearer than the destination or left by the path can be expanded |
| Walks.PrefixIsFound | pkg/cspf/cspf.go:187-191 | what a path that can be returned begins with can be returned for the router it ends at |
| Rounds.RunsAreGood | pkg/cspf/cspf.go:129-144 | where no round writes a wrapped sum, every table of every run keeps the invariant, settles cheaper routers first, and lets each router point back to the first settled of its best predecessors |
| CostLimits.RunsAreSoundExactlyWhenCostsFit | pkg/cspf/cspf.go:129-184 | over every run towards a destination the tables keep the invariant, for some order of settling, if and only if the costs fit: each router that may be expanded has sums below 2^32, or ends of links that a walk reaches for no more than the wrapped sum |
| CostLimits.NeverWrapsExactlyWhenCostsFit | pkg/cspf/cspf.go:129-184 | and no round of any run writes a wrapped sum if and only if they do |
| Rounds.KeepsSumsExactlyWhenTheyFit | pkg/cspf/cspf.go:161-184 | for one router: its round writes no wrapped sum if and only if its sums fit, given its distance alone |
| CostLimits.RoundIsSoundExactlyWhenNoWrapIsWritten | pkg/cspf/cspf.go:161-184 | a round keeps the invariant, for some order of settling, if and only if none of its relaxations writes a sum that wrapped; wrapped sums that are not written do no harm |
| CostLimits.BoundedMetricsFit | pkg/cspf/cspf.go:169-178 | number of routers times largest metric below 2^32 is a check under which every query's costs fit |
| CostLimits.BoundedMetricsFitLegs | pkg/cspf/cspf.go:44-67 | and those of every leg of every loose query |
| CostOverflow.WrappedCostHidesTheShortestPath | pkg/cspf/cspf.go:169-171 | on three routers with a path of cost 2^32 the rounds settle on it, although a direct link is cheaper |
| CostOverflow.BackPointersNeverReachTheSource | pkg/cspf/cspf.go:187-191 | on a line with a free link back the rounds end with back-pointers that go in a circle, so that following them from the destination never meets the source |
| CostOverflow.UnwrittenWrapFits | pkg/cspf/cspf.go:169-171 | on a line of two-way links the sum of the way back wraps, and all costs fit |
| LooseRouting.CSPFWithLooseSourceRouting | pkg/cspf/cspf.go:44-67 | the join of one shortest path and one waypoint segment per leg, or the error of the first leg that fails |
| LooseRouting.BuildSectionSegments | pkg/cspf/cspf.go:70-93 | one leg: a shortest path without a first segment that repeats the end of the list, and the waypoint's segment |
| LooseResults.JoinedIsKept | pkg/cspf/cspf.go:52-121 | the route has every segment of every leg, in order, except those at a seam that are the same hop as the one directly before |
| LooseResults.ResultVisitsWaypoints | pkg/cspf/cspf.go:44-106 | whatever is returned has, for every waypoint and the destination, a segment with the SID the caller gave or the router's own label or SID, and the router's local address |
| LooseResults.WaypointSegmentFails | pkg/cspf/cspf.go:96-106 | which error a waypoint's segment fails with |
| LooseResults.OtherSidIsKept | pkg/cspf/cspf.go:108-121 | a waypoint's SID that differs from the router's own is kept behind it |
| Segments.EqualSegmentsAreOneHop | pkg/table/sr_policy.go:271-296 | segments are equal if and only if they are both MPLS with one label, or both SRv6 with one SID, local and remote address |
| Segments.BehaviorMeans | pkg/table/sr_policy.go:190-204 | which of the four endpoint behaviors an SRv6 segment has, none without a local address |
| LooseRouting.CollapseNormalises | pkg/cspf/cspf.go:116-121 | the collapse has no two equal neighbours and ends where the list ends |
| LooseRouting.CollapseFixes | pkg/cspf/cspf.go:116-121 | collapsing changes nothing exactly when there is nothing to collapse |
| LooseRouting.JoinedIsCollapsedExactlyWhen | pkg/cspf/cspf.go:108-121 | for given legs, joining them is the adjacent-duplicate collapse of their concatenation exactly when no leg has equal neighbours inside itself |
| LooseCollapse.LooseRoutingCollapsesExactlyWhen | pkg/cspf/cspf.go:44-121 | every query whose costs fit, whichever paths the computation returns, yields the collapse of its legs if and only if no path that it can return enters two routers in a row that share a segment |
| LooseCollapse.RepeatsExactlyWhenALinkDoes | pkg/cspf/cspf.go:44-184 | where all costs fit, some path does if and only if some link does that ends a shortest path behind another router than the source, comes from a router that shares the segment of its end, and enters that end first |
| LooseCollapse.RepeatsOnlyWhereItMay | pkg/cspf/cspf.go:123-147 | and only if two links in a row are a shortest way into routers that share a segment, which is not enough |
| LooseCollapse.NearerWayWinsTheTie | pkg/cspf/cspf.go:169-171 | on a square a shortest path repeats a segment, but the one over the nearer router is returned, so every result is collapsed |
| LooseCollapse.ResultIsCollapsed | pkg/cspf/cspf.go:44-121 | what the routing returns is the collapse of its legs, without equal neighbours, when no two links in a row are a shortest way into routers that share a segment |
| LooseCollapse.DifferentNeighboursDoNotRepeat | pkg/cspf/cspf.go:44-121 | for which it is enough that no link joins two such routers |
| LooseCollapse.SharedLabelIsRepeated | pkg/cspf/cspf.go:44-121 | on a line of three routers whose last two share label 16001 the result is that label twice, and nothing else |
| LooseCollapse.TwoLinksAreShortest | pkg/cspf/cspf.go:123-147 | two links in a row of a shortest path are a shortest path |
| LooseRouting.NoWaypointsIsPlain | pkg/cspf/cspf.go:44-67 | without waypoints, and towards another router, it is plain path computation |
| Ted.UpdateKeepsClosed | pkg/table/ted.go:227-376 | every record keeps the TED closed: keys name their nodes, all nodes carry the configured AS, a link hangs on its local node and its far end is in the map, prefixes are distinct |
| Ted.BuildIsClosed | pkg/table/ted.go:20-24 | so does every sequence of records from the empty TED |
| TedConfluence.BuildDescribed | pkg/table/ted.go:20-24 | what is in the TED after a feed, router by router, without replaying it on the map |
| TedConfluence.PrefixCount | pkg/table/ted.go:314-333 | a prefix record is listed once however often it arrives |
| TedConfluence.AttrsFromFeed | pkg/table/ted.go:227-242 | a router's attributes are those of some node record for it, or none arrived |
| TedConfluence.ConfluentExactlyWhenRecordsAgree | pkg/table/ted.go:20-24 | all permutations of a feed give the same routers and attributes and the same multisets of links, prefixes and SIDs, if and only if no two of its records contradict each other |
| TedObjects.LsTED.UpdateNode | pkg/table/ted.go:227-242 | in place: a known node takes the four attributes and keeps its lists, an unknown one becomes the map's node |
| TedObjects.LsTED.UpdateLink | pkg/table/ted.go:275-293 | stubs for unknown ends, the link's ends become the map's own node objects, and the link hangs on its local node |
| TedObjects.LsTED.UpdatePrefix | pkg/table/ted.go:314-333 | the prefix is appended unless the node lists it |
| TedObjects.LsTED.UpdateSrv6Sid | pkg/table/ted.go:362-376 | the SID is appended and points to the map's node object |
| TedObjects.LsTED.Update | pkg/table/ted.go:20-24 | the objects after a batch are those the fold on values says, with node identity kept |
| SidIndex.NewSIDIndex | pkg/table/sid_validate.go:34-52 | the index holds exactly what the TED's nodes list, whatever the order of the map |
| SidIndex.SIDIndex.AddNodePrefixSIDs | pkg/table/sid_validate.go:55-68 | adds the labels of the node's prefix SIDs that lie in its SRGB |
| SidIndex.SIDIndex.AddSRv6 | pkg/table/sid_validate.go:108-123 | adds the IPv6 SIDs and the locators cut from them |
| SidIndex.SIDIndex.AddLinkSIDs | pkg/table/sid_validate.go:84-96 | adds adjacency labels and End.X SIDs |
| SidIndex.AnswerIsKnown | pkg/table/sid_validate.go:126-161 | the lookup answers yes if and only if some node, prefix, link or SID of the TED carries the segment, with uSID containers matched by leading address bits and declared locator length |
| SidAnswers.LabelIsAnsweredExactlyWhen | pkg/table/sid_validate.go:55-96 | a label is found if and only if it is SRGB base plus index of some Prefix-SID, within 20 bits and below the SRGB's end, the base not being 0, or an adjacency's and not 0 |
| SidAnswers.SidIsAnsweredExactlyWhen | pkg/table/sid_validate.go:98-161 | an SRv6 segment is found if and only if its SID is advertised, or it is a uSID container that starts with block and node bits (1 to 128) of an advertised SID and declares no shorter locator |
| SidAnswers.LeadingBitsAgree | pkg/table/sid_validate.go:119-151 | leading bits agree if and only if whole bytes do, and the upper bits of the next one |
| SidIndex.MissingSegments | pkg/table/sid_validate.go:164-177 | exactly the nil and unknown segments, in order, with their positions counted from one |
| SidIndex.NothingMissing | pkg/table/sid_validate.go:164-177 | empty exactly when every segment is known |
| SidIndex.NodeSegmentIsKnown | pkg/table/ted.go:181-209 | a node's own segment is found when its label lies in its SRGB and 20 bits, or its first SID is IPv6 |
| SidIndex.NodeSegmentIsKnownExactlyWhen | pkg/table/sid_validate.go:55-161 | a node's own segment is found if and only if it is in range, or another prefix or an adjacency of the TED has its label |
| SidAnswers.NodeSidIsInRangeExactlyWhen | pkg/table/sid_validate.go:70-82 | in range means: the first Prefix-SID has a base, and base plus index is within 20 bits and the SRGB; or there is none and the first SRv6 SID is IPv6 |
| SidIndex.HasMixedSegmentTypes | pkg/table/sid_validate.go:205-231 | true exactly when some segment is SR-MPLS and some other is not |
| ComputedPaths.PathIsKnownExactlyWhen | pkg/server/grpc_server.go:338-341 | the check that dynamic paths skip finds nothing missing on a path if and only if the SID of every router it enters is indexed |
| ComputedPaths.EmittedButNotIndexed | pkg/table/sid_validate.go:55-68 | on two routers, the second without an SRGB, the only computed path has a segment that the check would refuse |
| ComputedPaths.ComputedPathPassesValidation | pkg/server/grpc_server.go:338-341 | with the SIDs in range of those routers that have one, nothing is missing on any computed path |
| ComputedPaths.LoosePathPassesValidation | pkg/server/grpc_server.go:338-341 | nor on a loose path, if waypoints that bring a SID of their own bring a known one |
| ComputedPaths.PathSurvivesTheWireExactlyWhen | pkg/packet/pcep/object.go:765-868 | a path can always be sent as an explicit route, and is read back unchanged if and only if every router it enters has a 20-bit label or an IPv6 SID |
| ComputedPaths.ComputedPathSurvivesTheWire | pkg/packet/pcep/object.go:765-868 | so is every computed path over a TED whose SIDs fit |
| Netip.ContainsPrefixOf | pkg/table/sid_validate.go:119-151 | containment in a masked prefix is agreement on its leading bits |
| Netip.MappedMeans | pkg/packet/pcep/object.go:1105-1127 | an address is unmapped if and only if it is ::ffff: and four bytes, to these |
| Netip.LinkLocalMeans | pkg/packet/pcep/object.go:1105-1127 | link-local are 169.254.0.0/16 and fe80::/10 |
| Bytes.AppendByteSlices | pkg/packet/pcep/pcep_util.go:11-25 | the buffer filled at a running offset is the concatenation |
| TlvRoundTrip.RoundTripsExactlyWhenWellFormed | pkg/packet/pcep/tlv.go:1984-2031 | decoding the concatenated serializations of a list of TLVs, nested ones included, gives the list back if and only if every TLV is well-formed |
| TlvRoundTrip.AcceptedIsStable | pkg/packet/pcep/tlv.go:1984-2031 | what was accepted, written again, is read as the same list if and only if it holds no TLV that is one byte too long to be padded; no message is long enough for one |
| TlvRoundTrip.VendorRoundTrip | pkg/packet/pcep/tlv.go:1885-2031 | vendor TLVs: accepted bytes re-serialize to themselves, and a list decodes to itself if and only if its TLVs are opaque with the length of their value |
| TlvRoundTrip.DecodedList | pkg/packet/pcep/tlv.go:1995-2031 | whatever is accepted is well-formed (from 64 KiB on, up to TLVs that cannot be padded), and no longer when written again |
| TlvRoundTrip.NestedRoundTrip | pkg/packet/pcep/tlv.go:1378-1452 | path setup types, their padding and the TLVs behind them |
| TlvRoundTrip.StatefulRoundTrip | pkg/packet/pcep/tlv.go:401-474 | seven flags of the capability word survive, if the eight that are never written are off |
| TlvRoundTrip.CPathRoundTrip | pkg/packet/pcep/tlv.go:1643-1747 | a candidate path identifier survives unless its IPv6 originator begins with twelve zero bytes |
| WireFormat.LeafIsAcceptedExactlyWhen | pkg/packet/pcep/tlv.go:280-1902 | which TLV each type number stands for, and which values each decoder accepts |
| WireFormat.TypeIsWritten | pkg/packet/pcep/tlv.go:303-1913 | what is written begins with that type number |
| WireFormat.PaddedIsAcceptedExactlyWhen | pkg/packet/pcep/tlv_common.go:13-50 | a TLV handed over with its padding is accepted if and only if it is of variable length or unknown, and the padding is zero and up to four bytes |
| WireFormat.OnlySoManySetupTypes | pkg/packet/pcep/tlv.go:1367-1452 | of more than 255 path setup types the first 255 are written |
| WireFormat.OriginatorIsRead | pkg/packet/pcep/tlv.go:1643-1727 | what each originator address is read back as |
| Utf8.ValidExactlyWhenEncoded | pkg/packet/pcep/tlv.go:514-528 | a name is text if and only if it is the encoding of some sequence of Unicode scalar values |
| TlvFrames.LenIsSize | pkg/packet/pcep/tlv.go:1489-1498 | summed lengths are the byte count whenever that fits 16 bits, and a multiple of four |
| TlvLoops.DecodeTLVSequence | pkg/packet/pcep/tlv.go:1995-2031 | the loop on a shrinking slice, mutually recursive through nested TLVs, ends on every input, stays in bounds, and computes the decoding function |
| TlvLoops.DecodePathSetup | pkg/packet/pcep/tlv.go:1378-1417 | the same for the capability that holds TLVs |
| TlvLoops.DecodeAssocTypes | pkg/packet/pcep/tlv.go:1548-1567 | the array filled by index holds the 16-bit entries in order |
| TlvLoops.SerializeTLVs | pkg/packet/pcep/tlv.go:1419-1452 | the loop that appends bytes and adds lengths in 16 bits |
| EroRoundTrip.SurvivesExactlyWhenKept | pkg/packet/pcep/object.go:765-868 | a segment list survives construction, serialization, decoding and conversion unchanged if and only if each segment can be sent and is one the wire keeps |
| EroRoundTrip.KeptMeans | pkg/packet/pcep/object.go:950-1393 | what the wire keeps: labels below 2^20, TC below 8 and no IPv4-mapped address; IPv6 SID and local address, no IPv4 remote address, structure absent or four bytes |
| WireFormat.SrHopBegins | pkg/packet/pcep/object.go:1031-1151 | kind, length, NAI type and flags stand at the beginning of an SR hop, as numbers |
| WireFormat.Srv6HopBegins | pkg/packet/pcep/object.go:1281-1393 | the same of an SRv6 hop, and its endpoint behavior |
| WireFormat.HopIsAcceptedExactlyWhen | pkg/packet/pcep/object.go:950-1490 | which bytes are read as a hop of any of the three kinds |
| ReportFields.LinkLocalHopIsRead | pkg/packet/pcep/object.go:1207-1279 | an SRv6 hop with a link-local adjacency is read without its interface identifiers |
| EroRoundTrip.FramedListArrives | pkg/packet/pcep/object.go:765-868 | every properly framed list arrives, each segment with its label cut to 20 bits, TC to 3, and addresses unmapped |
| EroRoundTrip.EncodesExactlyWhenSendable | pkg/packet/pcep/object.go:831-892 | which lists can be sent at all: no remote address without a local one, no mixed families, no link-local IPv6 adjacency; a valid local address for SRv6 |
| EroRoundTrip.BodyRoundTrip | pkg/packet/pcep/object.go:765-829 | any list of hops whose bytes are what their flags announce, with any L, S, M, V and length fields and with RSVP IPv4 prefix hops among them, is decoded hop by hop, and its size is the sum of the lengths |
| EroRoundTrip.LenIsSizeExactlyWhen | pkg/packet/pcep/object.go:1281-1356 | the length of a constructed hop is its size if and only if, for SRv6, its addresses and structure make up what the flags announce |
| EroRoundTrip.ConstructsExactlyWhen | pkg/packet/pcep/object.go:844-892 | only SR-MPLS segments whose addresses do not fit each other keep a route from being built |
| EroRoundTrip.UnframedIsNotRead | pkg/packet/pcep/object.go:1207-1393 | an SRv6 hop with an address or structure of the wrong size is read as another segment whatever follows it |
| EroRoundTrip.WireFormIsStable | pkg/packet/pcep/object.go:765-868 | a second trip changes nothing |
| EroObjects.EroObject.DecodeFromBytes | pkg/packet/pcep/object.go:765-797 | the loop ends on every body and appends exactly the decoded hops |
| EroObjects.EroObject.AddEroSubobjects | pkg/packet/pcep/object.go:844-855 | one hop per segment, or an error at the first that cannot be built |
| EroObjects.EroObject.Serialize | pkg/packet/pcep/object.go:799-829 | header with the summed 16-bit length, then the hops |
| EroObjects.EroObject.ToSegmentList | pkg/packet/pcep/object.go:857-868 | the hops that are segments, in order |
| Objects.WalkFindsObjects | pkg/packet/pcep/object.go:156-184 | objects laid end to end are found again by the lengths in their headers, with class, type and flags |
| ObjectRoundTrip.SrpRoundTrip | pkg/packet/pcep/object.go:544-584 | an SRP object survives if and only if its TLVs are well-formed |
| ObjectRoundTrip.LspRoundTrip | pkg/packet/pcep/object.go:636-700 | an LSP object survives if and only if its operational state has three bits, its PLSP-ID has 20, its name and addresses are those of its TLVs, and these are well-formed |
| ObjectRoundTrip.ErrorRoundTrip | pkg/packet/pcep/object.go:403-436 | a PCEP-ERROR object survives if and only if its TLVs are well-formed |
| ObjectRoundTrip.AssociationRoundTrip | pkg/packet/pcep/object.go:1600-1660 | an association of the object type of its source's family survives if and only if its TLVs are well-formed |
| ObjectRoundTrip.VendorRoundTrip | pkg/packet/pcep/object.go:1816-1849 | vendor information survives if and only if its TLVs are opaque |
| ReportFields.LspSaysWhatItsTlvsSay | pkg/packet/pcep/object.go:636-670 | a decoded LSP has the name of its last name TLV, and sender, endpoint and LSP-ID of its last identifiers |
| ReportFields.LspaRoundTrip | pkg/packet/pcep/object.go:347-374 | every LSPA object survives |
| ReportFields.MetricIsRead | pkg/packet/pcep/object.go:295-302 | a metric's C and B flags, type and value are read from their places |
| ReportFields.ShortBodies | pkg/packet/pcep/object.go:280-1850 | below which sizes bodies are sliced out of bounds, and below which reported as an error |
| ReportFields.EarlierTlvsStay | pkg/packet/pcep/object.go:636-1849 | an object without TLVs leaves those of an earlier one |
| ReportFields.FourthStateBit | pkg/packet/pcep/object.go:672-700 | an operational state of four bits sets the C flag |
| Messages.LenOfIsSize | pkg/packet/pcep/object.go:567-829 | each object's length is its byte count |
| Messages.MessageIsWalkedExactlyWhen | pkg/packet/pcep/message.go:462-528 | any message whose objects serialize: the header announces four bytes and the sum of the objects' lengths, in 16 bits; walking by object lengths gives the objects back in order if and only if each one's length is its size and its type has four bits; then the header announces the byte count exactly when that fits 16 bits |
| Messages.MessageIsWalked | pkg/packet/pcep/message.go:462-528 | so it is for any message of objects whose TLVs and hops are as long as they say |
| Requests.InitiateIsBuiltExactlyWhen | pkg/packet/pcep/message.go:530-585 | a creation request is built if and only if its endpoints share a family (IPv4 for Juniper) and its SR-MPLS segments can be sent; a deletion always |
| Requests.InitiateArrives | pkg/packet/pcep/message.go:462-585 | from a PCInitiate the peer reads the SRP and LSP objects that were built, and the segments as the wire keeps them |
| Requests.DeletionArrives | pkg/packet/pcep/message.go:547-552 | from a deletion it reads the two objects that were built, and there is no route |
| Requests.UpdateArrives | pkg/packet/pcep/message.go:594-627 | from a PCUpd it reads the SRP and LSP objects that were built and the segments |
| RequestFields.CreationReachesPeer | pkg/server/session.go:708-725 | from the request for a policy the peer reads: SRP-ID, no remove flag, path setup type 1 or 3 by the first segment; a new LSP with the policy's name and color, delegated, up and active; source and destination; the route; and color and preference as its kind of PCC wants them |
| RequestFields.DeletionReachesPeer | pkg/server/session.go:708-725 | from its deletion: SRP-ID, remove flag, PLSP-ID, name and color, and nothing else |
| RequestFields.UpdateReachesPeer | pkg/server/session.go:727-744 | from its update: SRP-ID, no remove flag, PLSP-ID, name, and the route |
| RequestFields.AssociationSays | pkg/packet/pcep/object.go:1680-1752 | the association is read with color, endpoint, originator and preference if and only if an IPv6 endpoint does not begin with twelve zero bytes |
| ErrorMessages.PCErrMessage.DecodeFromBytes | pkg/packet/pcep/message.go:197-237 | the loop over a running offset ends on every body, stays in bounds, and collects what the specification collects; accepted exactly when well framed with at least one error |
| ErrorMessages.PCErrMessage.SRPIDs | pkg/packet/pcep/message.go:259-268 | the SRP-IDs in wire order |
| ErrorMessages.InterleavedObjectsAreCollected | pkg/packet/pcep/message.go:217-232 | however SRP objects, errors and other objects are interleaved, both lists are found complete and in order |
| ErrorMessages.AddMeans | pkg/packet/pcep/message.go:217-232 | objects of class 13 are errors and of class 33 SRPs, with type, value and SRP-ID from their places; others add nothing |
| ErrorMessages.RoundTripsExactlyWithAnError | pkg/packet/pcep/message.go:197-255 | a serialized PCErr whose objects fit their length fields is read back if and only if it has an error and its TLVs are well-formed |
| Reports.PCRptMessage.DecodeFromBytes | pkg/packet/pcep/message.go:407-444 | on every framed body the loop computes the grouping function, failures included |
| Reports.GroupingInvertsFlattening | pkg/packet/pcep/message.go:407-444 | a list of reports `[SRP] LSP attributes*`, with unregistered objects anywhere among them, is decoded to exactly these reports in order, each with its own attributes, or to the first failure |
| Reports.FramedReportsArrive | pkg/packet/pcep/message.go:407-444 | the same from the bytes on |
| Reports.FlatteningIsInjective | pkg/packet/pcep/message.go:421-433 | the grammar needs no delimiters: lists of reports that are written alike are the same |
| Reports.ReportIsRead | pkg/packet/pcep/message.go:330-391 | a report of an SRP, an LSP, a route, an association and vendor information yields these values |
| ReportFields.AttributesAreAdded | pkg/packet/pcep/message.go:330-391 | bandwidths, metrics and hops are appended to the report, and LSPA, association and vendor information replaced, by class number |
| SrpId.NextUnusedSRPID | pkg/server/session.go:678-691 | the first unused ID in cyclic order from the normalised head, never 0 or the maximum; none exactly when all are in use |
| IntentMachine.RunKeepsInv | pkg/server/session.go:68-172 | over every interleaving: an ID found unused stays unused until recorded, IDs are in range, and each allocation has exactly one fate |
| IntentMachine.NoIntentIsOverwritten | pkg/server/session.go:695-706 | an ID is recorded only while no intent is outstanding for it |
| IntentMachine.AllocationIsExclusive | pkg/server/session.go:695-706 | two callers are never both between probing and recording |
| IntentMachine.SentIdsAreNotReserved | pkg/server/session.go:678-706 | no message is sent with SRP-ID 0 or 2^32-1 |
| IntentMachine.ConsumedAtMostOnce | pkg/server/session.go:146-155 | what is consumed was outstanding and never consumed, forgotten, swept or cleared before |
| IntentMachine.IntentsLiveAMinute | pkg/server/session.go:26-97 | an intent outlives a sweep if and only if it was recorded no more than sixty seconds before |
| IntentMachine.IntentsAreConserved | pkg/server/session.go:68-172 | allocated = consumed + forgotten + swept + cleared + outstanding |
| IntentMachine.ProbesFollowTheCycle | pkg/server/session.go:678-691 | probes visit the IDs in cyclic order even while other threads change the table between them |
| SessionIntents.InterleavingsAreRuns | pkg/server/session.go:68-172 | over every interleaving the machine's intent table and head are the session's after the corresponding steps, so the theorems on both are about one table |
| SessionIntents.ActionIsSteps | pkg/server/session.go:695-706 | an allocation that other threads interleave with is one recording step of a free SRP-ID |
| SessionRuns.ListRefinesMap | pkg/server/session.go:821-887 | over every run of steps the list is a map keyed by PLSP-ID: unique keys, updates in place, appends and swap-deletes as the map does them; no empty segment list, valid endpoints |
| SessionRuns.RunsFromStart | pkg/server/session.go:174-188 | so it is from the empty session on |
| SessionRuns.LiveEntry | pkg/server/session.go:821-887 | as long as an entry lives its LSP-ID does not decrease and its endpoints stay, through updates and through deletions too old to remove it |
| SessionRuns.EntryEndsExactlyWhen | pkg/server/session.go:872-887 | an entry's life ends if and only if a deletion names it and is not older |
| SessionRuns.DeletionIsLocal | pkg/server/session.go:872-887 | a deletion removes the named entry if it is not newer, and no other |
| PolicyFields.HandledIsRegistered | pkg/server/session.go:425-527 | after any report that is registered its entry has the report's name, LSP-ID and segments (or the computed ones), the state for its operational state, color and preference from where its kind of PCC puts them, endpoints kept or from LSP or association, and the intent's Type and Metric; a newer entry and all others stay; none is created without endpoints |
| PolicyFields.RegisterDoes | pkg/server/session.go:746-870 | the same of registering alone |
| SessionRuns.AnswersKeepTypeAndMetric | pkg/server/session.go:821-870 | answers to updates of a policy never change its Type and Metric, whatever interleaves, unless another API call on it is answered |
| SessionAnswers.EventsKeepTypeAndMetric | pkg/server/session.go:425-870 | whatever reports are handled, requests made and intents forgotten, swept or cleared in between, they stay until a report answers another request on the policy or removes it |
| SessionAnswers.HandlingIsQuiet | pkg/server/session.go:425-527 | handling a report that has SRP-ID 0, one of the policy's own updates or one nobody waits for, and does not remove the policy, is such a run |
| SessionAnswers.AnswerAfterEventsChangesNoType | pkg/server/session.go:425-870 | after such events the answer to the update that a report triggered leaves Type and Metric as the update carried them |
| SessionRuns.HandleIsSteps | pkg/server/session.go:425-527 | a handled report is a run of the steps the invariants are about |
| SessionUpdates.ReportSendsAtMostOnce | pkg/server/session.go:425-527 | a report triggers at most one PCUpd; only an unsolicited one that removes nothing, with a computed path; one with an SRP-ID triggers none; the update has a fresh SRP-ID and its intent repeats the policy's Type and Metric |
| SessionUpdates.UpdateCarriesComputedPath | pkg/server/session.go:496-527 | the update's message is the PCUpd for exactly the computed segments |
| SessionUpdates.AnswerChangesNoType | pkg/server/session.go:727-870 | the answer to the update that a report triggered leaves Type and Metric as they were |
| SessionUpdates.InitiationIsRecordedOrForgotten | pkg/server/session.go:708-725 | a sent request keeps the intent under a free SRP-ID; a failed one leaves none |
| SessionUpdates.SentExactlyWhen | pkg/server/session.go:708-744 | a request goes out if and only if an SRP-ID is free, the message can be built and the connection takes it |
| SessionUpdates.NextUnusedIsFirstFree | pkg/server/session.go:695-706 | the allocator's result is the first free SRP-ID of the session |
| SessionObjects.SRPolicy.Update | pkg/table/sr_policy.go:88-103 | in place: state and LSP-ID always, the rest where given |
| SessionObjects.SessionObject.AllocateSRPID | pkg/server/session.go:695-706 | the first free SRP-ID with its intent recorded and the head behind it, or nothing changed |
| SessionObjects.SessionObject.TakeSRPolicyIntent | pkg/server/session.go:146-155 | the intent, which is gone afterwards; none for SRP-ID 0 |
| SessionObjects.SessionObject.SweepExpiredSRPolicyIntents | pkg/server/session.go:88-97 | exactly the expired intents are gone |
| SessionObjects.SessionObject.HandlePCErr | pkg/server/session.go:388-400 | exactly the reported intents are gone |
| SessionObjects.SessionObject.RegisterSRPolicy | pkg/server/session.go:746-870 | the objects after registering are those of the specification |
| SessionObjects.SessionObject.DeleteSRPolicy | pkg/server/session.go:872-887 | swap-delete in the list of objects, and the intent only with the entry |
| SessionObjects.SessionObject.SendPCUpdate | pkg/server/session.go:727-744 | allocate, build, send, and forget on any failure |
| SessionObjects.SessionObject.SendPCInitiate | pkg/server/session.go:708-725 | the same for requests to create or delete |
| SessionObjects.SessionObject.HandleStateReport | pkg/server/session.go:425-527 | the whole new state and the result of handling any report |

## Left out

- Sockets, partial reads, gRPC, GoBGP clients, the CLI, configuration, logging and generated code; what the connection and the clock answer are parameters.
- Text forms of IP addresses and their zones: a SID is text that parses to an IPv4 or IPv6 address, or does not.
- Nil entries in the TED's slices and maps.
- Cspf.Spf: requires what the source takes for granted, that the source router is in the TED, no router has the empty ID, and costs fit 32 bits where they are written; `CostOverflow` shows two ways it goes wrong otherwise. What errors it can return is stated one way only. It reads the TED as a value, since it only reads it; its own table of nodes is made of objects.
- TedObjects.LsTED.Update: prefix records are values, so the re-use of one prefix object by two feeds is not captured; nodes, links and SIDs are objects.
- The hop-count metric, which the feed never sets; metrics are what the links carry.
- TLVs, subobjects and PCEP objects other than the ERO are values: each is filled once, when built or decoded, so decoders are functions (from the prior value where they keep some of it), and their partial writes before an error are not captured. The ERO object, PCErr, PCRpt, the policies and the session are objects.
- TlvRoundTrip.RoundTripsExactlyWhenWellFormed: where the original serializer panics, for vendor information and association type lists whose buffer length wraps in 16 bits, the model writes no bytes; longer vendor information is cut off as in the original. None of these is well-formed.
- The OPEN, KEEPALIVE and CLOSE messages, decoding of the common message header, and the round trip of METRIC objects, whose serializer writes a float and whose decoder reads an integer.
- The SRv6 link-local adjacency NAI beyond its decoding, which drops the interface identifiers; no constructor here yields one.
- Reports.PCRptMessage.DecodeFromBytes: requires that the body's objects are framed (lengths of at least four, within the body); elsewhere the original slices out of bounds or does not advance.
- Reports.GroupingInvertsFlattening: speaks about bodies of the grammar; an SRP without an LSP, or attributes before the first report, are covered by the decoding function alone.
- Messages.MessageIsWalked: asks for TLVs and hops of the right length, which is enough for framed objects but not necessary; the exact statement is `MessageIsWalkedExactlyWhen`.
- ErrorMessages.RoundTripsExactlyWithAnError: says nothing of objects whose TLVs or whose size do not fit their 16-bit lengths.
- IntentMachine.ProbesFollowTheCycle: time is a number that grows, and the order in which blocked threads get a mutex is not modelled.
- SessionRuns.HandleIsSteps: a report is handled at once here; the theorems over runs of steps cover other threads in between, except that the path and the message are computed from the session as the report found it.
- SessionUpdates.AnswerChangesNoType: is about steps in which no other API call on the same policy is answered and its SRP-ID is not given out again; without the first the later answer's Type wins, which is what the source intends. `SessionAnswers` says the same of handled reports.
- How a session looks up source and destination routers and the metric type for a report; the computed path is a parameter, and `Cspf` and `ComputedPaths` say what it is.
- The server's session list, the debouncer of the BGP-LS feed, capability negotiation, enum and description tables, input validators and field-copying converters, which would only add easy members.
