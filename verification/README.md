# Verified model of gochickpeas

gochickpeas stages a property graph in a mutable builder and finalizes it into an immutable snapshot:
two CSR adjacencies, label bitmaps and typed columns. A snapshot can be thawed back into a builder,
edited and finalized again, sharing whatever the edits left alone. Queries read it through derived
indexes; files carry it in the RCPG format.

Almost every layer claims to equal something simpler. This project states those claims in Dafny 4.11
and proves them for all inputs, all runs or all reachable states.

- **Build, thaw, refinalize** -- `StableSort`, `Csr`, `InToOut`, `Thaw`, `PositionMap`, `Staging`,
  `Removal`, `Builder`, `Finalizing`, `Cow`, `RoundTrip`, `ThawBuilder`, `Generations`, `Meaning`,
  `Reading`, `RelReading`, `Touched`. A CSR is the stable rank of
  every relationship by owner; everything about positions follows from uniqueness of
  order-isomorphic permutations. Edits are functions on a staged state, the `Builder` class refines
  them, and runs of edits, round after round, are related to an eager model, to a full rebuild and to the
  plain graph that reads of every snapshot answer from.
- **Columns** -- `Columns`, `ColumnStore`, `Bitset`: last write wins in every layout.
- **Searches and kernels** -- `Heap`, `WeightedGraph`, `Search`, `Dijkstra`, `Bidirectional`,
  `SnapshotGraph`, `Kernels`. Weights are exact non-negative reals; `+Inf` is a missing arc.
- **Index tiers** -- `RelTypes`, `TypedAdjacency`, `BoundPair`: every tier yields the filtered primary
  range, or the staged relationships between two nodes.
- **Containers** -- `FlatTable`, `FlatSet`, `FlatRuns`, `PlanCache`, `AtomReader`.
- **Codecs and value keys** -- `AtomSection`, `RcpgWire`, `Rcpg`, `WireForm`, `Floats`, `Values`,
  `SortOrder`, `GroupKey`, `Comparison`, `ValueOrder`, over `Powers`.

`dafny verify dfyconfig.toml` checks everything.

## Where a claim fails, and exactly when it holds

- The comment at cow.go:163-166 says the successor's first relationship column pays for the position
  map. The code completes the successor's Once with the source's absent map, so it never does.
  `Cow.InToOutAgreesIff` has the exact condition, `Cow.PositionMapGoesMissing` an instance.
- thaw.go:9-13 promises a byte-identical no-edit round trip for every snapshot Finalize produces. A
  dense string column over an id gap turns the gap into a node. `RoundTrip.NoEditRoundTrip` has the
  exact condition, `RoundTrip.GapIsSpanned` an instance.
- The compaction map holds 32-bit indexes, so properties of live relationships can vanish:
  `Removal.CompactKeepsProps` has the exact condition, `Removal.WrapDropsProps` an instance.
- The recycler's "exactly n slots" (flatset/flatset.go:42-43) fails in the clamped last class, and a
  set presized there can end up probing for ever: `FlatSet.Recycle.Take` and `FlatSet.U32Set.Add` have
  the exact conditions, `FlatSet.OversizedRecycler` and `FlatSet.FillOversized` an instance;
  `FlatRuns.RunOps` covers every run that stays below it.
- rcpg/lazy.go:176-180 promises a lazy parse identical to the eager one; section 8 is never requested:
  `Rcpg.ParseBothWays`.
- typedadj_query.go:127-129 promises seek positions in the outgoing frame whichever side is read. A
  snapshot whose position map is missing gives incoming ones: `BoundPair.SeekDirection` has the exact
  condition, `BoundPair.ReadsAnothersProperty` an instance.
- gql/value/groupkey.go:35-37 says grouping agrees with `=`: `Comparison.ScalarsAgreeIff` has the exact
  condition, `Comparison.EqualIntegersGroupApart` an instance.
- A bit column's byte count is taken in 32 bits by the writer and in 64 by the reader:
  `RcpgWire.ReadBackBits` has the exact condition.

## Model

| member | source | states |
|---|---|---|
| `Csr.BuildCsrDirection` | finalize.go:201-222 | from exact degrees, the counting sort lays every staged relationship at its stable rank by owning node, and returns exactly those ranks as the relationship-to-position map |
| `Csr.OffsetsOf` | finalize.go:201-222 | prefix sums of the degrees are, for every node, the number of relationships owned below it |
| `Csr.LayoutIsUnique` | thaw.go:9-13 | a staged sequence has one layout, so two builds of it are equal offset for offset, neighbor for neighbor, type for type |
| `Csr.RangeListsStaged` | finalize.go:201-222 | each node's range lists the relationships it owns, in insertion order, and nothing else |
| `Csr.AppendedLandAfter` | thaw.go:54-57 | relationships staged later land after the earlier ones in each node's range and do not move them within it |
| `InToOut.CountingPass` | serialize.go:86-103 | one stable counting pass is the stable sort of the positions by that key |
| `InToOut.RadixOrder` | serialize.go:33-67 | the three passes order positions by source, destination and type, ties in position order |
| `InToOut.OwnersOf` | serialize.go:68-77 | offsets expand to the owning node of every position |
| `InToOut.ComputeInToOut` | serialize.go:33-67 | the map is a bijection, and for every staged sequence with these two CSRs it sends each relationship's incoming position to that same relationship's outgoing position, parallel ones in order |
| `PositionMap.PairMapOfTopology` | serialize.go:18-67 | the map is a function of the two CSRs: any two staged sequences with the same CSRs have the same map |
| `Thaw.KahnWalk` | thaw.go:132-200 | the walk respects both directions' chains and, on CSRs of any staged sequence, never stalls: it visits every position, in a linear extension of both orders |
| `Thaw.ThawRelOrder` | thaw.go:132-200 | a permutation of all outgoing positions that keeps every node's outgoing order, inconsistent CSRs and the fallback included, and a linear extension of both orders whenever the CSRs come from one staged sequence |
| `Thaw.NoStall` | thaw.go:128-134 | a walk whose queue is exhausted has queued every position, provided the constraints have no cycle |
| `Thaw.ThawRels` | thaw.go:105-117 | the restaged sequence lays out to the same outgoing CSR always and to both CSRs whenever they come from one staged sequence, and the returned map takes each outgoing position to its staged index |
| `Thaw.ThawAndRebuild` | thaw.go:9-13 | thawing any consistent pair of CSRs and rebuilding both directions reproduces offsets, neighbors and types exactly |
| `Thaw.InvertPositions` | thaw.go:89-98 | the inverse permutation, both ways round |
| `Columns.CanonIsLastWrites` | finalize.go:41-55 | sorting stably and keeping the last of equal positions gives an ascending list whose writes are exactly the newest staged write of every position |
| `Columns.NarrowReads` | column_narrow.go:33-104 | every byte class reads back the value stored, over the full 64-bit range, the padded 48-bit load included |
| `Columns.VecReads` | column_narrow.go:173-196 | whichever integer class is chosen, length and every element read back |
| `Columns.SlotCountsBelow` | column_rank.go:28-35 | a present position's slot is the number of present positions below it; an absent one has none |
| `ColumnStore.SparseSlot` | column.go:137-152 | the binary search finds the position's slot exactly when it is present |
| `ColumnStore.BuildRankIndex` | column_rank.go:49-65 | presence bits and block ranks of exactly the given positions |
| `ColumnStore.DistinctPositions` | finalize.go:90-106 | the number of distinct positions written, duplicates aside |
| `ColumnStore.NarrowVals` | column_narrow.go:55-104 | the narrowest class whose span fits, or none |
| `Columns.NarrowIsNarrowest` | column_narrow.go:55-83 | integers narrow exactly from 1024 values on and below a span of 2^48, from the least value, into the first of one, two, four and six bytes that holds the span |
| `ColumnStore.LayoutInNumbers` | finalize.go:22-88 | dense exactly at full coverage, strings from four fifths rounded down; else ranked exactly over a million positions or more when bits cost no more than sparse ids; else sparse |
| `ColumnStore.ColumnFromPairs` | finalize.go:108-197 | the column built is that of the canonical list, whichever of the layouts is chosen |
| `ColumnStore.Get` | column.go:49-166 | reads what the stored list holds at the position in every layout |
| `ColumnStore.FinalizedReads` | finalize.go:41-197 | for all staged writes within the span, a read is owed the newest write at the position; where there is none, atom 0 inside a dense string column and absence everywhere else |
| `ColumnStore.BuildAndGet` | finalize.go:108-197 | building a column from staged writes and reading it returns exactly that |
| `ColumnStore.EntriesAreStored` | column_rank.go:37-47 | iteration lists exactly the stored pairs, ascending, in every layout |
| `ColumnStore.RestagedColumn` | thaw.go:223-257 | restaging a column's entries and finalizing again gives back the column itself |
| `Bitset.Bits.Set` | internal/bitset/bitset.go:61-68 | changes that bit and no other |
| `Bitset.Bits.CountRange` | internal/bitset/bitset.go:79-97 | masked words at both ends and whole words between count exactly the set bits of the clamped range |
| `Bitset.Bits.Ones` | internal/bitset/bitset.go:99-111 | lists the set positions in ascending order |
| `Bitset.Bits.ToPackedLsb` | internal/bitset/bitset.go:35-45 | the packed bytes spell the same bits |
| `Bitset.FromPackedLsb` | internal/bitset/bitset.go:23-33 | the vector built spells the packed bits, completing the round trip |
| `Removal.EveryRunIsEager` | removal.go:149-216 | for every interleaving of edits, tombstones and watermarks mark exactly the relationships, and hide exactly the properties, that deleting on the spot would have removed |
| `Removal.EditIsEager` | removal.go:149-216 | one lazy edit is one eager edit |
| `Removal.RemoveNodeLive` | removal.go:174-198 | a watermark kills exactly the incident relationships staged so far |
| `Removal.DeadStaysDead` | removal.go:167-173 | whatever touches a removed id again, relationships staged before the removal stay dead |
| `Removal.NewIndexIsExact` | removal.go:232-242 | the 32-bit compaction entry of a live relationship is right if and only if its new index is below 2^31; from there on it is negative |
| `Removal.RemapIsRenumber` | removal.go:268-286 | remapping staged properties gives the live relationships' pairs, in order, under their new indexes, if and only if every such index is below 2^31 |
| `Removal.CompactIsEager` | removal.go:228-260 | compaction keeps every live relationship, in order, at consecutive indexes |
| `Removal.CompactKeepsProps` | removal.go:252-286 | a property key's pairs follow the live relationships through compaction, renumbered in order, if and only if all their new indexes are below 2^31 |
| `Removal.WrapDropsProps` | removal.go:232-286 | a state of 2^31 + 2 relationships, one tombstoned, whose last relationship lives on at index 2^31 and loses its property |
| `Removal.CrowdedIsReached` | removal.go:149-164 | the run of edits from the empty builder that leads to that state |
| `Builder.Builder.AddNode` | builder.go:173-184 | stages the labels, resurrects or registers the id, marks the labels dirty; refuses only the ceiling id (`Meaning.AddLabelsMeans`: the node gains exactly these labels) |
| `Builder.Builder.AddRel` | builder.go:196-220 | stages one relationship at the returned index with degrees, known endpoints, dirty mark and lookup map all kept exact |
| `Builder.Builder.RemoveRel` | removal.go:149-164 | tombstones a live handle and lowers its degrees; any other handle is refused and changes nothing |
| `Builder.Builder.RemoveNode` | removal.go:174-198 | labels and properties go, the watermark is the staged count; unknown ids change nothing (`Meaning.SweepAllMeans`: every other node keeps all it holds) |
| `Builder.Builder.SetProp` | builder.go:303-326 | appends the write to its typed column and registers the node (`Meaning.SetMeans`: from then on this is the value the node holds) |
| `Builder.Builder.RemoveProp` | removal.go:57-80 | sweeps the node's writes of the key in all four families and reports whether there were any |
| `Builder.Builder.UpdateProp` | builder.go:335-343 | sweep, then set |
| `Builder.Builder.SetRelPropAt` | builder.go:391-420 | stages on a live handle only |
| `Builder.Builder.RemoveRelPropAt` | removal.go:123-141 | sweeps on a live handle only, reporting what was removed |
| `Builder.Builder.FindRelIndex` | builder.go:357-376 | returns the first live relationship with these endpoints and type, or reports that there is none; nothing staged changes |
| `Builder.Builder.SetRelProp` | builder.go:381-387 | stages on the first live match, or refuses |
| `Builder.Builder.IsLive` | removal.go:202-216 | tombstoned or below either endpoint's watermark is dead |
| `Builder.Builder.SlideLive` | removal.go:232-245 | filtering the staged array in place while scanning it yields the live relationships in order and the index map |
| `Builder.Builder.CompactRemovals` | removal.go:228-260 | the staged state becomes its compaction, with degrees exact for the CSR build |
| `Builder.Builder.Finalize` | finalize.go:354-433 | returns the sharing build of the compacted state when thawed from a snapshot, the full build otherwise |
| `Builder.RemoveAllPairs` | removal.go:25-33 | the pairs of other ids, in order, and whether any went |
| `Builder.SweepFamilies` | removal.go:57-68 | all four families lose the id's pairs and emptied columns |
| `Builder.SweepNode` | removal.go:86-103 | every column loses the id's pairs and no others, and exactly the keys that had one are reported |
| `Builder.RemapColumns` | removal.go:270-286 | every column remapped, emptied ones dropped |
| `Builder.Recount` | removal.go:247-252 | degrees recomputed exactly over the surviving relationships |
| `Builder.DegreesAfterRemove` | removal.go:157-160 | a live relationship's counters are positive and exact after the decrement |
| `Meaning.EditMeans` | builder.go:173-420 | one edit on the staged state is one change to a graph of nodes, labels, property values and relationships: exactly the entries it names are set or deleted, every other one is untouched |
| `Meaning.EveryRunMeans` | removal.go:149-216 | every run of edits, from any state, means those changes in order |
| `Meaning.SetMeans` | builder.go:303-326 | a property write is the value the node holds from then on, under that typed key, and no other entry changes |
| `Meaning.SweepKeyMeans` | removal.go:57-68 | removing a property deletes the node's values of that key under all types and nothing else |
| `Meaning.SweepAllMeans` | removal.go:86-103 | removing a node deletes exactly its own values; in every column every other node still holds what it held |
| `Meaning.AddLabelsMeans` | builder.go:173-184 | the node has exactly these labels more, and no other node gains or loses one |
| `Reading.ColumnOwes` | finalize.go:41-197 | the finalized column of a key holds, for every node, its value in the key's last family, or nothing, or the empty string's atom inside a string column filled to four fifths |
| `Reading.NodesAndLabels` | finalize.go:244-271 | along every history, the snapshot's nodes are those of the meant graph, and a node is in a label's set if and only if it has the label |
| `Reading.ReadNodeProp` | props.go:8-26 | a property read of any snapshot along a history gives what the meant graph holds |
| `Reading.OwedByEdits` | builder.go:303-326 | edits first, then Finalize and a read: the answer is that of the graph the edits make |
| `Reading.StageAndRead` | builder.go:173-343 | on a new builder, any edits, Finalize, and reads of a property, a node and a label: the answers are those of the graph the edits make from nothing |
| `RelReading.ReadRelProp` | props.go:28-44 | a relationship's property is read at its outgoing position as the meant graph holds it |
| `RelReading.RelStandsThere` | finalize.go:201-222 | at that position the outgoing CSR lists its target and type within its source's range |
| `RelReading.CompactMovesProps` | removal.go:252-286 | a live relationship moves to the number of live ones before it, and its values move with it while its indexes fit 31 bits |
| `RelReading.OwedThroughCompaction` | removal.go:228-286 | what a read owes a live relationship is the same before compaction and after it |
| `RelReading.ThawMeans` | thaw.go:44-87 | a thawed builder means what the snapshot answers: the same labels and, under each key's family, the same values, gaps of dense string columns turned into written empty strings |
| `Touched.RunMarks` | cow.go:19-66 | over every run, the relationships, a node or relationship column, or a label is marked dirty if and only if it was before or some edit of the run touched it in the graph the earlier edits had made |
| `Touched.EditMarks` | cow.go:19-66 | the same for one edit; the source stays |
| `Cow.AliasIsFull` | cow.go:94-187 | a sharing Finalize builds the topology, labels, node and relationship columns of a full rebuild |
| `Cow.InToOutAgreesIff` | cow.go:167-183 | the position map agrees with a full rebuild's if and only if the successor has no relationship column, or rebuilds its CSR, or its source holds a map |
| `Cow.EditKeepsTracked` | cow.go:23-66 | after every edit, whatever is not marked dirty is still as thawed |
| `Cow.EveryRunFinalizesAlike` | cow.go:94-269 | for every finalized source, map or no map, and every run of edits on its thaw, sharing equals rebuilding, every carried cache is fresh, and the position map agrees exactly when the source's own is there or not needed |
| `Cow.EveryGeneration` | cow.go:94-269 | whatever the edits, the result is again a finalized snapshot of the relationships then staged |
| `Cow.RebuildIsFinalized` | finalize.go:354-433 | a full build satisfies everything a thaw relies on |
| `Cow.ThawIsTracked` | thaw.go:82-87 | a thaw dirties nothing |
| `Cow.PositionMapGoesMissing` | cow.go:176-183 | a concrete two-relationship graph whose successor has relationship properties but no position map, though incoming position 0 is stored at outgoing position 1 |
| `Cow.FirstRelPropLosesMap` | snapshot.go:217-228 | for every shared CSR without a map, the first relationship property leaves the successor without one |
| `Finalizing.MeasureIds` | finalize.go:359-362 | the id space is one past the greatest known id, at least one |
| `Finalizing.FinalizeColumns` | finalize.go:405-413 | families overwrite each other in order, clean keys are shared, the rest are built |
| `Finalizing.FinalizeLabels` | finalize.go:244-271 | the shared index when no label is dirty, else clean bitmaps shared and the others rebuilt by the scan |
| `Finalizing.ScanLabels` | finalize.go:250-259 | for every label not passed over, exactly the nodes carrying it |
| `Finalizing.FinalizeTopology` | finalize.go:376-403 | shared CSRs when the plan allows, else built, with the relationship-to-position map either way |
| `Finalizing.PlannedCaches` | cow.go:205-269 | what is carried is exactly what was built from shared components |
| `Finalizing.Assemble` | finalize.go:354-433 | all phases together give the sharing or the full build |
| `RoundTrip.NoEditRoundTrip` | thaw.go:9-31 | for every finalized snapshot, an unedited thaw finalizes by sharing to the same snapshot but for the node set; a full rebuild agrees too, and on the position map if and only if none is missing; the node set is the same if and only if no dense string column spans an id that is no node |
| `RoundTrip.KnownAfterThaw` | thaw.go:67-79 | a thaw knows the snapshot's nodes plus whatever a dense string column spans, and the id space is unchanged |
| `RoundTrip.EveryBuildRoundTrips` | thaw.go:9-13 | the round trip for everything a builder can finalize |
| `RoundTrip.RebuildIsAnchored` | finalize.go:354-433 | everything a full build holds hangs off its nodes, gaps under dense strings aside |
| `RoundTrip.EveryRunFromScratch` | finalize.go:354-433 | whatever any run of edits stages from scratch finalizes to a snapshot the round trip and every thaw may start from |
| `Generations.EveryHistoryIsSound` | cow.go:94-269 | in every history of rounds from the empty builder -- finalize, query, thaw, edit, finalize -- each snapshot is the full rebuild of what was staged then, position map and caches aside, holds the right map or none, carries only fresh indexes of those its queried predecessor had, and can be thawed again |
| `Generations.NextIsSound` | cow.go:94-269 | one round from any sound snapshot: any thaw, any edits, and the result is sound |
| `Generations.EveryIndexIsFresh` | cow.go:205-269 | every index a query could build is fresh, so a history may carry any of them |
| `Generations.MapMissingIff` | cow.go:167-183 | along a history the map goes missing exactly where relationship columns meet a CSR shared from a map-less predecessor |
| `Generations.ThawIsTyped` | thaw.go:223-257 | restaged integers are 64-bit integers |
| `Generations.RunRounds` | thaw.go:32-87 | any rounds of any edits, with any queries in between, can be run through the builder's own methods, and the snapshots they return are those of such a history |
| `Cow.RunKeepsKnown` | builder.go:222-226 | every run leaves all labels and property writes on known nodes |
| `RoundTrip.GapIsSpanned` | finalize.go:82-84 | four string properties over ids 0, 1, 2 and 4 already break the exact round trip |
| `ThawBuilder.NewBuilderFromSnapshot` | thaw.go:32-87 | the builder made is valid, stages exactly what the snapshot holds and knows exactly the traced nodes, with nothing dirty |
| `ThawBuilder.ThawLabels` | thaw.go:44-53 | per-label sets inverted into per-node labels |
| `ThawBuilder.ThawRelColumns` | thaw.go:260-291 | stored positions become the staged indexes of the relationships there |
| `ThawBuilder.ThawAndFinalize` | thaw.go:9-31 | thaw then Finalize returns the snapshot, its node set exactly when no gap is spanned |
| `Heap.DijkstraHeap.Push` | search_dijkstra.go:172-183 | keeps heap order and adds exactly that entry |
| `Heap.DijkstraHeap.Pop` | search_dijkstra.go:185-205 | removes a least entry, keeping heap order and every other entry |
| `Heap.DijkstraHeap.SiftDown` | search_dijkstra.go:190-204 | restores heap order below a displaced root with the same entries |
| `Heap.RootIsLeast` | search_dijkstra.go:162-168 | nothing in a heap is below its root |
| `Dijkstra.Dijkstra` | search_dijkstra.go:229-260 | without a target, a node has a distance exactly when reachable, and it is the minimum; with one, the target's and all nearer distances are exact; zero-weight cycles included |
| `Dijkstra.ShortestPaths.Densify` | search_dijkstra.go:132-149 | switching to arrays changes no distance and no predecessor |
| `Dijkstra.ShortestPaths.Set` | search_dijkstra.go:116-127 | one relax write, in either mode |
| `Dijkstra.ShortestPaths.Distance` | search_dijkstra.go:42-51 | the recorded distance, in either mode |
| `Dijkstra.ShortestPaths.Distances` | search_dijkstra.go:62-74 | the whole distance table, in either mode |
| `Dijkstra.ShortestPaths.PathTo` | search_dijkstra.go:77-103 | terminates on a real path from the source of exactly the recorded cost |
| `Search.EveryRun` | search_dijkstra.go:229-260 | the search invariant holds after every run of pops |
| `Search.NearIsExact` | search_dijkstra.go:229-260 | a distance no greater than every frontier entry is the minimum |
| `Search.ExhaustedIsExact` | search_dijkstra.go:229-260 | with the frontier empty, distances are exactly the minimum costs of the reachable nodes |
| `Bidirectional.WeightedShortestPath` | search_dijkstra.go:282-343 | returns the true minimum cost, and reports unreachable exactly when no path exists |
| `Bidirectional.HaltedIsOptimal` | search_dijkstra.go:305-318 | when the stopping rule fires, no path is cheaper than the best meeting seen at a pop |
| `Bidirectional.ExpandKeepsMet` | search_dijkstra.go:319-340 | every turn keeps: each arc between the two settled sides is already accounted for in the best meeting |
| `SnapshotGraph.ReverseIsMirror` | search_dijkstra.go:278-281 | read off the two CSRs with one weight per stored relationship, the reverse traversal is the mirror image of the forward one, for every direction and matcher |
| `SnapshotGraph.SeenAreRels` | search_dijkstra.go:247-252 | the arcs a traversal sees are exactly the matching staged relationships with their weights |
| `SnapshotGraph.SnapshotShortestPath` | search_dijkstra.go:275-343 | over a snapshot's own CSRs, the minimum cost over paths of staged relationships, or unreachable exactly when there is none |
| `Kernels.BuildRootsVia` | kernels.go:207-244 | terminates on every graph, and each root lies on its node's chain and is the chain's terminal whenever the chain ends |
| `Kernels.CapMeansEndless` | kernels.go:229-234 | the depth cap trips only on a chain that never ends |
| `Kernels.CheckFunctional` | kernels.go:143-160 | true exactly when no node has two relationships of the type |
| `Kernels.CheckTerminalOnly` | kernels.go:164-184 | true exactly when no member has a relationship of the type |
| `Kernels.CollapseIsReachability` | kernels.go:71-80 | the members reachable in zero or more hops are the root if it is a member, else none, on graphs with cycles too |
| `Kernels.ChainCollapse` | kernels.go:81-110 | roots come back exactly when both facts hold, and then answer the expansion from every node |
| `RelTypes.Compress` | reltypes.go:44-77 | palette or wide, every position reads the given type |
| `RelTypes.PaletteIndexOf` | reltypes.go:131-141 | the type's palette index, or -1 exactly when it has none |
| `RelTypes.TypeTest` | reltypes.go:153-205 | the resolved test agrees with the matcher at every position, for all, one and many types |
| `TypedAdjacency.BuildTypedCsr` | typedadj.go:283-314 | offsets, neighbors and stored positions of every node's filtered range, node by node |
| `TypedAdjacency.TypedCsrRun` | traverse.go:104-110 | a node's run in the per-type CSR is its filtered primary range |
| `TypedAdjacency.BuildTypedRuns` | typedadj.go:183-218 | the same hits with owners, and the hint at every bucket's first entry |
| `TypedAdjacency.BuildHint` | typedadj.go:206-216 | hint entry b is where owners 64b and up begin |
| `TypedAdjacency.RunRange` | typedadj.go:65-78 | the bucketed search returns exactly the node's filtered primary range |
| `TypedAdjacency.ScanRange` | reltypes.go:226-259 | the scan yields the matching relationships of the range in order |
| `TypedAdjacency.TraverseDirection` | traverse.go:173-211 | whichever tier answers, neighbors and positions are those of filtering the primary range, in its order |
| `BoundPair.CountDirection` | typedadj_query.go:28-72 | for every matcher and direction, side-picked runs, sorted edge keys and the scan all return how many staged relationships join the two nodes and match |
| `BoundPair.CountNeighbors` | typedadj_query.go:15-24 | the outgoing count, the incoming one, or their sum |
| `BoundPair.CountScanned` | typedadj_query.go:54-71 | the scan tier counts the hits of the node's filtered range, with or without a type test |
| `BoundPair.HitsCountStaged` | typedadj_query.go:9-14 | for any matcher, either endpoint's filtered range names the other as often as matching relationships between them were staged |
| `BoundPair.EdgeKeys` | typedadj_query.go:80-99 | the ascending multiset of the type's endpoint keys |
| `BoundPair.CountKeyHits` | typedadj_query.go:102-109 | the multiplicity of a key in an ascending list |
| `BoundPair.SeekDirection` | typedadj_query.go:152-204 | for every matcher and tier, exactly the matching relationships' positions, strictly ascending, after the untouched prefix; they are outgoing positions if and only if the position map is there or the outgoing side was read, which run lengths decide |
| `BoundPair.SeekBetween` | typedadj_query.go:133-141 | the outgoing segment, then the incoming one, each ascending and each in outgoing positions exactly under that condition |
| `BoundPair.HitsLength` | typedadj_query.go:162-165 | a node's run is as long as the matching relationships it owns, from either side |
| `BoundPair.ReadsAnothersProperty` | typedadj_query.go:125-129 | a graph of three relationships where, beside relationship columns and without the map, an outgoing seek returns an incoming position, and reading there gives another relationship's property |
| `BoundPair.SeekScanned` | typedadj_query.go:184-203 | the scan tier keeps the hits on the other endpoint, in range order, sorting nothing |
| `BoundPair.RunSeeks` | typedadj_query.go:131-132 | unsorted, what any node's filtered range keeps is exactly the wanted positions in ascending order, since both CSRs keep parallel relationships in staging order |
| `BoundPair.SortIsIdle` | typedadj_query.go:162-167 | sorting the appended tail changes nothing |
| `BoundPair.SeekIsUnique` | typedadj_query.go:119-132 | there is only one such ascending list, so all tiers agree |
| `BoundPair.DerivedMapIsHome` | snapshot.go:217-228 | the map derived from the CSRs is a map the seek may use |
| `FlatTable.Probe` | flatset/flatset.go:94-101 | ends if and only if a masked slot is free or the id is there, at the id's slot or at the empty slot where it belongs |
| `FlatTable.Fill` | flatset/flatset.go:102-104 | adds that id and nothing else, and the table stays sound |
| `FlatTable.Rehash` | flatset/flatset.go:219-229 | ends if and only if the ids fit, and then the new table holds the same ids |
| `FlatSet.ClassIsSize` | flatset/flatset.go:70-82 | two power-of-two sizes share a class if and only if they are equal or both at least 2^25 |
| `FlatSet.Recycle.Take` | flatset/flatset.go:44-58 | a zeroed array no longer filed; it has the asked size if and only if that is below 2^25 or the array filed last in the shared class has it; held bytes stay the filed bytes |
| `FlatSet.Recycle.Put` | flatset/flatset.go:61-68 | files the array under its class; held bytes stay the filed bytes |
| `FlatSet.U32Set.Add` | flatset/flatset.go:84-105 | ends if and only if the growth that is due gets an array the ids fit into and a masked slot is free or the id is there; then the set gains the id and reports whether it was new; a healthy set handed twice its size always ends and stays healthy |
| `FlatSet.U32Set.Has` | flatset/flatset.go:184-197 | true exactly for members; the probe ends unless the masked slots are full and the id absent |
| `FlatSet.U32Set.Len` | flatset/flatset.go:200-200 | the number of members |
| `FlatSet.U32Set.Grow` | flatset/flatset.go:214-231 | ends if and only if the ids fit the array handed out for twice the size; then the same members, the mask over the whole array, the outgrown one filed |
| `FlatSet.U32Set.Presize` | flatset/flatset.go:173-181 | members unchanged; a healthy table of n slots if and only if the array handed out has n, and no table at all if it has fewer |
| `FlatSet.U32Set.SmallTablesGrow` | flatset/flatset.go:214-218 | below 2^25 slots a growth is always handed twice its size or more |
| `FlatSet.FillOversized` | flatset/flatset.go:173-181 | presized for n in a recycled array of 2n slots or more, the set takes n ids without growing, and then adding any other id never ends |
| `FlatSet.OversizedRecycler` | flatset/flatset.go:44-82 | a recycler that hands out 2^26 slots for 2^25 |
| `FlatSet.HomeOutside` | flatset/flatset.go:173-181 | presized into an array shorter than the mask, some id's home slot lies outside the array |
| `FlatSet.U32Set.Reset` | flatset/flatset.go:204-207 | no members, same array |
| `FlatSet.U32Set.Release` | flatset/flatset.go:112-117 | no members, array handed to the recycler |
| `FlatSet.AddShared` | flatset/flatset.go:84-105 | among any sets sharing one recycler, an add that ends leaves no array live twice or both live and filed; the set gains the id and its count, a healthy set with room stays healthy, and whatever array is new to it is newly allocated; the other sets are untouched either way |
| `FlatSet.ReleaseShared` | flatset/flatset.go:112-117 | the same for releasing: the set has no members and no array, the recycler's arrays are old ones |
| `FlatSet.PresizeShared` | flatset/flatset.go:173-181 | sharing stays sound if and only if the array handed out covers the mask, and a healthy set stays healthy if and only if it has exactly that many slots; the other sets are untouched |
| `FlatSet.ResetShared` | flatset/flatset.go:204-207 | the same for resetting: no members, the same array, health kept |
| `FlatRuns.RunOps` | flatset/flatset.go:84-207 | any sequence of adds, lookups, sizes, presizes, resets and releases over any sets sharing one recycler: with each set below 3 * 2^23 ids when added to and presizes below 2^25, every operation ends, every answer is the mathematical set's, and every set ends as that set |
| `FlatRuns.RunFromScratch` | flatset/flatset.go:84-207 | the same from new sets on a new recycler |
| `FlatRuns.BelowCapacity` | flatset/flatset.go:89-91 | below 3 * 2^23 ids a growth that is due is always handed twice the size or more |
| `PlanCache.PlanCache.Insert` | gql/cache.go:343-368 | the entry is recorded against the winning plan and charged 96 bytes, the query, 4096 and twelve times the template text, and the lifted values; then at most an eviction pass; books, holds and budget hold again |
| `PlanCache.PlanCache.L1Lookup` | gql/cache.go:314-325 | a hit becomes most recently used and is counted, and nothing else changes |
| `PlanCache.PlanCache.L2Lookup` | gql/cache.go:328-338 | the template's plan and one more second-level hit, or nothing and one more miss |
| `PlanCache.PlanCache.Evict` | gql/cache.go:382-405 | only entries older than all survivors go; over the budget, ten times the charge left is at most nine times the budget, and the youngest entry gone would not have fitted under nine times a tenth of it |
| `PlanCache.PlanCache.Deref` | gql/cache.go:372-377 | the template dies with its last hold |
| `PlanCache.PlanCache.AttachSighted` | gql/cache.go:200-214 | the second plan is charged once, 4096 and twelve times the query text, then at most an eviction pass |
| `PlanCache.PlanCache.SetMaxBytes` | gql/cache.go:443-448 | evicts at once to the new budget |
| `PlanCache.PresentIffHeld` | gql/cache.go:51-53 | a template is present exactly when some entry holds it, and its count is the number of holders |
| `PlanCache.EvictedWithinBudget` | gql/cache.go:379-405 | after a pass the charge is within any non-negative budget; a negative one empties the cache |
| `PlanCache.EvictedInNumbers` | gql/cache.go:379-386 | a pass over a budget ends at nine tenths of it or below, and the youngest entry that went, kept, would have put the charge above nine times a tenth of it |
| `PlanCache.NewestGoesLast` | gql/cache.go:379-405 | the newest entry goes only with every other |
| `AtomSection.EncodeAtoms` | rcpg/section.go:141-152 | the section body: count, then length-prefixed strings |
| `AtomSection.DecodeAtoms` | rcpg/section.go:154-183 | decoding what was encoded returns the table |
| `AtomSection.AtomReads` | rcpg/section.go:141-152 | every atom sits at its computed offset, prefix then bytes |
| `AtomSection.EncodeAtomIndex` | rcpg/section.go:192-206 | block length, count and the running offset at every block's first atom |
| `AtomSection.StartsAreExact` | rcpg/section.go:186-191 | entry b is the offset of atom b times the block length, for every block |
| `AtomSection.DecodeAtomIndex` | rcpg/section.go:208-238 | decoding what was encoded returns it, its ascent check passed |
| `AtomSection.ValidateAtomIndex` | rcpg/section.go:244-267 | accepts an index if and only if it is the atoms' own block starts |
| `AtomReader.AtomReader.Atom` | rcpg/atoms_lazy.go:166-181 | for every block length, chunk size, cache size and history, the string the eager decoder has at the id, or refusal past the count |
| `AtomReader.AtomReader.EnsureScanned` | rcpg/atoms_lazy.go:223-258 | the scan terminates without a false truncation error and knows exactly the first target atoms |
| `AtomReader.AtomReader.ScanChunk` | rcpg/atoms_lazy.go:235-252 | a chunk advances past every whole atom in it, or asks for exactly the spanning atom's bytes |
| `AtomReader.AtomReader.LoadBlock` | rcpg/atoms_lazy.go:185-216 | the block's atoms, cached, with the cache within its cap |
| `AtomReader.AtomReader.Remember` | rcpg/atoms_lazy.go:209-215 | the cache stays within its cap and the queue lists exactly its blocks |
| `AtomReader.AtomReader.AdoptIndex` | rcpg/atoms_lazy.go:126-156 | an encoded index passes every check and becomes an exact router with nothing left to scan |
| `RcpgWire.ReadWords` | rcpg/cursor.go:96-142 | a fixed-width vector reads back what was written |
| `RcpgWire.ReadData` | rcpg/column.go:210-306 | each of the eight column forms reads back what was written |
| `RcpgWire.BitColumnsWholeIff` | rcpg/column.go:138-140 | the writer emits a bit column's bytes whole if and only if its length is below 2^32 - 7; from there on it emits none |
| `RcpgWire.ReadBackBits` | rcpg/column.go:138-140 | a bit column written and read back returns if and only if its length is below 2^32 - 7; from there on the read is refused |
| `RcpgWire.DecodeColumns` | rcpg/column.go:185-208 | a column section reads back what was written |
| `RcpgWire.ReadIndex` | rcpg/section.go:401-427 | a bitmap index reads back what was written |
| `Rcpg.DecodeSection` | rcpg/rcpg.go:228-252 | each section's own fields come back and no other changes |
| `Rcpg.WriteWith` | rcpg/rcpg.go:123-180 | header, directory with running offsets, then the enabled sections' bodies |
| `Rcpg.WrittenFileTiles` | rcpg/rcpg.go:163-168 | directory ranges follow the front matter and tile the file to its end, without gap or overlap |
| `Rcpg.ParseDirectory` | rcpg/lazy.go:102-131 | the directory written comes back |
| `Rcpg.ParseWith` | rcpg/rcpg.go:193-222 | parsing what the writer emitted returns the graph as far as it was written and asked for |
| `Rcpg.ParseLazy` | rcpg/lazy.go:181-216 | the lazy parse of the same bytes agrees on every field except the existence set |
| `Rcpg.ParseBothWays` | rcpg/lazy.go:181-216 | the eager and the lazy parse of the same written bytes agree if and only if no existence set was written |
| `WireForm.LittleEndian` | rcpg/cursor.go:172-194 | byte k of a stored number is its k-th digit to base 256, low digit first |
| `WireForm.HeaderForm` | rcpg/rcpg.go:4-9 | sixteen bytes: RCPG, version 1, no flags, the section count, a reserved word |
| `WireForm.FileForm` | rcpg/rcpg.go:163-180 | directory entry i stands at 16 + 24 i with id, reserved word, offset and length in 4, 4, 8 and 8 bytes, and the section's body stands at that offset |
| `WireForm.SectionsPresent` | rcpg/rcpg.go:123-162 | sections 1 to 4 always, 5, 6 and 7 if asked for, 8 if asked for and there is one, in ascending order |
| `WireForm.FirstSections` | rcpg/section.go:141-318 | where atoms, version, node count and label index stand in sections 1 to 3 |
| `WireForm.LaterSections` | rcpg/rcpg.go:31-47 | which sections hold relationships, columns, atom index and existence set |
| `WireForm.RelsForm` | rcpg/section.go:322-336 | count in eight bytes, each vector as count and four-byte words, then the type index |
| `WireForm.IndexForm` | rcpg/section.go:383-399 | count, then each entry's atom, bitmap length and bitmap, one after another |
| `WireForm.ColumnForm` | rcpg/column.go:12-183 | key in four bytes, the tag of the form, length, then every element at its width and place, ids before values in sparse forms |
| `WireForm.ColumnsForm` | rcpg/column.go:116-183 | count, then the columns one after another |
| `Floats.TotalKeyIsTotalOrder` | gql/value/compare.go:249-255 | the bit trick decides exactly the strict total order of floats, and ties only on equal patterns |
| `Floats.SameIntSameFloat` | gql/value/groupkey.go:93-98 | two floats canonicalize to one integer only if they are one float or the two zeros |
| `Floats.SmallIntegersAreExact` | gql/value/value.go:217-226 | below 2^53 an integer's float canonicalizes back to the integer |
| `Floats.ConversionAscends` | gql/value/compare.go:239-245 | integer-to-float conversion is monotone over all 64-bit integers |
| `Floats.ConversionIsNearest` | gql/value/value.go:217-226 | an integer's float is the nearest of all finite floats, and where another is as near, the even one |
| `Floats.ConversionTiesIff` | gql/value/value.go:217-226 | two 64-bit integers convert to one float if and only if they round to one number of 53 bits |
| `Floats.NearestValue` | gql/value/value.go:217-226 | an integer's float is worth the integer rounded to 53 bits, carries into the next exponent included |
| `Values.SortForgetsInsertion` | gql/value/compare.go:285-292 | entries with distinct keys sort the same however they were inserted |
| `SortOrder.OrderCmpIsKeyOrder` | gql/value/compare.go:159-209 | for all values nested to any depth, the comparison is the lexicographic order of sort keys |
| `SortOrder.OrderCmpIsTotalPreorder` | gql/value/compare.go:151-209 | reflexive, sign-antisymmetric and transitive, with ties exactly equal sort keys |
| `SortOrder.InsertionOrderTies` | gql/value/compare.go:266-282 | maps differing only in insertion order tie |
| `SortOrder.FloatsFollowTotalOrder` | gql/value/compare.go:247-255 | floats order as section 5.10 of IEEE 754-2019 has them |
| `SortOrder.IntegersFollowOrder` | gql/value/compare.go:169-174 | 64-bit integers i <= j compare as less, or tie if and only if they round to one number of 53 bits; below 2^53 they never tie |
| `SortOrder.LargeIntegersTie` | gql/value/compare.go:169-174 | 2^53 and 2^53 + 1 tie |
| `SortOrder.OrderCompare` | gql/value/compare.go:159-209 | the early-return loops compute that comparison, whose tiers and orders within them `ValueOrder` spells out |
| `SortOrder.CompareLists` | gql/value/compare.go:179-186 | element by element, then by length |
| `SortOrder.CompareMaps` | gql/value/compare.go:270-282 | key-sorted entries by key and value, then by size |
| `ValueOrder.KindsInOrder` | gql/value/compare.go:212-236 | booleans before numbers before strings, lists, nodes, relationships, paths, maps, moments and durations, nulls after everything, by constructor and for every two values |
| `ValueOrder.SimpleInOrder` | gql/value/compare.go:159-209 | false before true; strings by the first byte that differs, a prefix first; nodes and relationships by id |
| `ValueOrder.NumbersInOrder` | gql/value/compare.go:169-174 | an integer against a float, either way round, by total order from what the integer converts to |
| `ValueOrder.FloatsInOrder` | gql/value/compare.go:247-255 | floats by total order, either way round |
| `ValueOrder.MomentsInOrder` | gql/value/compare.go:196-200 | moments by milliseconds, then kind |
| `ValueOrder.DurationsInOrder` | gql/value/compare.go:201-208 | durations by months, then days, then milliseconds |
| `ValueOrder.PathsInOrder` | gql/value/compare.go:189-193 | paths by nodes, then relationships, each by the first id that differs, a prefix first |
| `ValueOrder.ListsInOrder` | gql/value/compare.go:179-186 | after any number of ties the next pair decides, and a list that ends comes first |
| `ValueOrder.MapsInOrder` | gql/value/compare.go:266-282 | in key order, after any number of ties, the smaller key comes first, under one key the smaller value, and a map that ends first |
| `ValueOrder.KeysInOrder` | gql/value/compare.go:285-292 | that key order lists every entry once, smaller keys first |
| `GroupKey.PrefixFree` | gql/value/groupkey.go:38-89 | where two encodings begin one byte string, the values are one canonical value and the encodings end together |
| `GroupKey.KeysAreCanonical` | gql/value/groupkey.go:32-37 | two encodings are equal if and only if the values agree after integral floats become integers and map entries are key-sorted |
| `GroupKey.NumbersGroupByValue` | gql/value/groupkey.go:93-98 | a float groups with an integer if and only if it is that integer, in range |
| `GroupKey.FloatsGroup` | gql/value/groupkey.go:93-98 | two floats group if and only if they are one float or the two zeros |
| `GroupKey.InsertionOrderGroups` | gql/value/groupkey.go:72-80 | insertion order does not split groups |
| `GroupKey.AppendKey` | gql/value/groupkey.go:38-89 | the appending loops extend the bytes by exactly the encoding |
| `Comparison.ScalarsAgreeIff` | gql/value/groupkey.go:32-37 | on scalars equal keys and `=` agree if and only if the pair is not two nulls, a NaN with itself, integers or an integer and a float that meet only by rounding, moments that differ in kind alone, or a moment and an integer |
| `Comparison.EqualIntegersGroupApart` | gql/value/compare.go:11-15 | 2^53 equals 2^53 + 1 and groups apart from it |
| `Comparison.PlainValuesAgree` | gql/value/groupkey.go:32-37 | on values of any depth without nulls, NaNs, moments and integers a float cannot hold, keys are equal exactly when the values are |
| `Comparison.IntAgainstFloat` | gql/value/compare.go:59-75 | an integer equals a float if and only if the float is that integer, or is what the integer rounds to |
| `Comparison.IntAgainstInt` | gql/value/compare.go:59-75 | integers compare equal if and only if they round to one number of 53 bits |
| `Comparison.FloatAgainstFloat` | gql/value/compare.go:64-74 | floats compare equal if and only if they are one float or both zeros, and no NaN |
| `Comparison.CompareValues` | gql/value/compare.go:16-75 | the loops compute the three-valued comparison, whose signs `ValueOrder` spells out |
| `ValueOrder.IntegersCompare` | gql/value/compare.go:59-75 | 64-bit integers are less, equal or greater exactly as what they round to |
| `ValueOrder.IntegersKeepOrder` | gql/value/compare.go:59-75 | a smaller integer never compares as greater, and as less whenever both are exact |
| `ValueOrder.FloatsCompare` | gql/value/compare.go:64-75 | floats are less, equal or greater exactly as their values, and incomparable exactly when one is no number |
| `ValueOrder.MixedCompare` | gql/value/compare.go:59-75 | an integer is less or greater than a float exactly as what it rounds to is, and incomparable only with no number |
| `ValueOrder.SimpleCompare` | gql/value/compare.go:24-53 | the sign for booleans, strings, ids, and moments against moments or integers |
| `ValueOrder.NoOrderBetween` | gql/value/compare.go:16-62 | nulls compare with nothing, maps, paths and durations are equal or incomparable, and so is any pair of two kinds but moments and integers |
| `ValueOrder.ListsCompare` | gql/value/compare.go:86-94 | after any number of equal pairs the next pair decides, and a list that ends is less |
| `ValueOrder.SwapTurnsRound` | gql/value/compare.go:16-75 | swapping the arguments turns the sign round and nothing else, at any depth, whenever map keys are distinct |
| `Comparison.CompareLists` | gql/value/compare.go:86-94 | element by element, the first pair that differs or does not compare deciding, then by length |
| `Comparison.MapsEqual` | gql/value/compare.go:98-116 | true exactly when sizes match and every entry finds its key with an equal value |
| `Comparison.MapsAgree` | gql/value/compare.go:96-116 | maps of distinct keys whose values agree pairwise are equal exactly when their key-sorted canonical entries are |

## Left out

- Interning and atoms of names: labels, types and keys arrive as atoms; the version string and the automatic node-id counter are not part of the staged state.
- Value kinds of staged properties: floats, booleans and string atoms are carried as integers that only need to come back unchanged.
- Capacity hints: a builder is created with room for at most 2^32 - 1 nodes, and label storage grows with its map.
- Goroutines, locks and Once: lazy indexes are pure functions built once; the position map is modelled by what a reader finds.
- Caches as values: a carried index is represented by the components it was built from, and the full-text one is treated like the equality index it shares its key with.
- Builder.Builder.Finalize: does not model the cross-typed drop count, the type index, atoms or eagerly requested equality indexes, which are counts and lookups over what is modelled.
- Map iteration order and `sort.Slice` internals: loops over maps take keys in any order; sorting is by a stable insertion, which any sort agrees with on distinct keys.
- ThawBuilder.ThawLabels: does not order a node's labels by atom, because Finalize only rebuilds the per-label sets.
- Snapshots read from older or foreign files, whose dense numeric columns may be partly filled: a thaw starts from a finalized snapshot.
- Direction Both of a traversal: the outgoing answer followed by the incoming one.
- Early stopping of iterators: a yielded prefix of the modelled sequence.
- Thaw.ThawRelOrder: computes the position map even where the snapshot holds one; a finalized snapshot holds the same map or none (`Cow.MapFits`, `PositionMap.PairMapOfTopology`).
- Thaw.ThawRels: for CSRs that disagree, says nothing of the incoming one, which the restaged sequence need not reproduce.
- Dijkstra.Dijkstra: does not model floating-point rounding of path costs; weights are exact reals.
- Reused scratch state of the bidirectional search: fresh maps and heaps per call.
- FlatSet.U32Set.Add: covers ids below 2^32 - 1, as the zero slot demands; a probe that comes full circle is reported as not ending.
- The 64-bit flat set and map, and the recycler bank: the same probing, with no recycler or with counting only.
- PlanCache.PlanCache.Insert: takes texts by identity and length, and lifted values by their byte estimates; parsing, planning, plan-flip detection and execution are not part of this model.
- AtomReader.AtomReader.AdoptIndex: covers the index the writer emits; which corrupt indexes are refused is not modelled.
- AtomReader.AtomReader.Atom: covers sections as the writer emits them; which error a corrupt section raises is not modelled, and fetches never fail.
- UTF-8 validity of strings, and the portable bitmap serialization: strings and bitmaps are byte sequences that round-trip.
- Rcpg.ParseWith: threads the cursor as a position and leaves the 64-bit overflow of offset plus length to the bounds check.
- SnapshotGraph.SnapshotShortestPath: takes one weight per stored relationship; a weight function that depends on the end it is read from is the asymmetric case search_dijkstra.go:279-281 rules out.
- Comparison.PlainValuesAgree: goes one way for nested values; which containers with nulls, NaNs or rounding integers inside still agree is stated for scalars only.
- Geo search, BM25, PageRank, clustering, RDF import, file and gzip plumbing, the GQL front end and executor.
