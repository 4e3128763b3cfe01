# Verified models of xcbuild's core algorithms

This project models, in Dafny, the parts of xcbuild that the correctness of a whole build rests on, and proves what they
promise. `dafny verify dfyconfig.toml` checks everything. Each module follows one source file (or one layer of it) in the
form the source has: objects that change become classes, loops become methods with invariants, and each method is
tied to a specification function about which the laws are proved.

- **Build order.** `DirectedGraph.dfy` is the iterative depth-first sort: it fails exactly on cyclic graphs.
  `SimpleExecutor.dfy` is the invocation sort on top of it: it succeeds exactly when a schedule exists.
  `NinjaExecutor.dfy` is the dependency graph written for Ninja: its explicit, implicit and order-only edges are given
  exactly, every order that respects them keeps phases and target dependencies in order, and what makes a node out of
  date is stated apart from what only comes before it.
- **BOM store.** `BomLayout.dfy` says what the bytes mean (header, index, variables, blocks), `BomUpdates.dfy` what single
  writes do to that meaning, `Bom.dfy` is the allocator: every operation keeps the layout valid, blocks apart and in
  place, and bindings intact. `BomTree.dfy` is the tree of pairs inside blocks, `CarWriter.dfy` the asset catalog
  writer whose slot reservation turns out exact. `BomFormat.dfy` says the same bytes in plain numbers.
- **Header map.** `HeaderMap.dfy` is the hash table with interned strings, growth and rehash (no entry is ever lost, and
  a written table is reachable by probing); `HeaderMapTable.dfy` holds the theory of probing, `HeaderMapFile.dfy` the file
  format.
- **Setting and path languages.** `SettingValue.dfy` is the backtracking parser and the printer of setting
  expressions, `SettingEnvironment.dfy` the resolver over levels with inheritance, `Paths.dfy` path normalisation and
  relative paths, `MemoryFilesystem.dfy` the file system in memory, seen as a map from paths.
- **Codecs.** `Md5.dfy` is the streaming interface around the compression function, `Rfc4648.dfy` the base encodings,
  `MakefileDependencyInfo.dfy` the makefile syntax for dependencies, `ShellQuoting.dfy` and `NinjaValue.dfy` the two layers
  of quoting in Ninja files, `DerivedDataHash.dfy` the base 26 name of a digest.

`Wrappers.dfy`, `Arithmetic.dfy`, `Numerals.dfy`, `Bytes.dfy` and `Strings.dfy` are shared: options, division, numbers and
their digits, bytes and fixed-width fields, searching in strings.

Some promises do not hold on all inputs; there the code is modelled as it is, and the exact condition is proved:

- A header map gives strings with NUL bytes back cut at the first one. It refuses a repeated key exactly when an earlier
  addition of it brought a new string; a key whose string was a prefix or suffix first can be added again and again.
- A variable name of 256 bytes or more is not found again in a BOM, because its length is stored in one byte.
- `bom_free_indices_add` without reserved slots records a longer index than it makes unless one entry is asked for, and
  `bom_index_append` moves the address of an empty block away from its new room.
- `bom_tree_add` inserts at the last probed position, so keys are not kept sorted: the order is kept exactly when the key
  is not greater than the one at that position. Its room check does not count the leaf header and never fires: without
  reserved room a new tree is overwritten by its first pair. The 65536th pair sets the count of the leaf back to 0.
- A setting expression is read back from its printed form, a string from its parsed form, and the sum of two expressions
  from their joined texts, only under the conditions stated; braces print as parentheses.
- In the files for Ninja a target without invocations finishes after a phase that has no rule, and a target that depends
  on one without environment begins after a node that has no rule.
- Settings that lead into a circle of references never resolve, all others do. `$(NAME:operation)` inside the definition
  of NAME is such a circle, because only the bare name means the inherited value.
- The makefile reader keeps the backslash before a colon or a dollar sign, takes a backslash at the end of a path
  together with what follows it, and reads several outputs as one.
- The shell does not see an empty argument, because it is not quoted. Ninja bindings cannot hold a newline, and a bar in a
  path is not escaped.
- Strict base decoding fails when white space follows whole groups without padding.
- Reading a file in memory from an offset without a length stops as many bytes before the end.
- Removing the root directory of the file system in memory succeeds and removes nothing.

While a header map grows it probes modulo the old bucket count (HeaderMap.cpp:228-232). No entry is lost, and since `write`
rehashes first no file shows it.

Assumptions that are stated as preconditions: sizes and offsets of the binary formats fit 32 bits; allocation succeeds;
one call of `md5_append` takes fewer than 2^31 - 63 bytes, beyond which an `int` overflows. From 2^28 bytes on `nbytes << 3`
(md5.c:328) overflows an `int` as well; that shift is assumed to wrap. A setting resolves with finite depth where
the resolver is called; the lemmas say when that is so.

## Model

| member | source | states |
|---|---|---|
| DirectedGraphs.DirectedGraph.Ordered | Libraries/pbxbuild/Sources/DirectedGraph.cpp:52-100 | terminates on every graph; nothing is returned exactly when the graph has a cycle (a self-loop is one); otherwise every node appears exactly once, after everything it depends on |
| DirectedGraphs.DirectedGraph.Insert | Libraries/pbxbuild/Sources/DirectedGraph.cpp:18-31 | nodes and edges grow by exactly the given ones; the graph stays well formed |
| DirectedGraphs.DirectedGraph.Adjacent | Libraries/pbxbuild/Sources/DirectedGraph.cpp:40-50 | the successors of a node, none for an unknown one, all of them nodes |
| DirectedGraphs.PathClosesCycle | Libraries/pbxbuild/Sources/DirectedGraph.cpp:73-81 | a child that is in progress closes a cycle along the current depth-first path |
| DirectedGraphs.TopologicalIsAcyclic | Libraries/pbxbuild/Sources/DirectedGraph.cpp:90-99 | a graph that has a topological order has no cycle |
| SimpleExecutors.SortInvocations | Libraries/xcexecution/Sources/SimpleExecutor.cpp:106-163 | succeeds exactly when some order satisfies all producer and phase constraints; the result is then such an order and a permutation of the input |
| SimpleExecutors.NeighboursOrderAllPhases | Libraries/xcexecution/Sources/SimpleExecutor.cpp:142-149 | although edges link only neighbouring priorities, in a topological order every invocation of a lower priority comes before every one of a higher priority |
| SimpleExecutors.TopologicalIsSchedule | Libraries/xcexecution/Sources/SimpleExecutor.cpp:118-162 | topological orders of the graph built are schedules: first recorded producers before consumers, lower phases before higher ones |
| SimpleExecutors.ScheduleIsTopological | Libraries/xcexecution/Sources/SimpleExecutor.cpp:118-162 | conversely every schedule is a topological order of that graph |
| SimpleExecutors.CyclicMeansUnschedulable | Libraries/xcexecution/Sources/SimpleExecutor.cpp:154-157 | with a cycle there is no schedule at all |
| SimpleExecutors.SelectIsPermutation | Libraries/xcexecution/Sources/SimpleExecutor.cpp:159-161 | selecting along an order without repetition permutes the invocations |
| SimpleExecutors.RecordOutputs | Libraries/xcexecution/Sources/SimpleExecutor.cpp:109-116 | every output is mapped to the first invocation that lists it, and the set of priorities is complete |
| SimpleExecutors.NextPriority | Libraries/xcexecution/Sources/SimpleExecutor.cpp:142-143 | the least priority above a given one, if there is one |
| SimpleExecutors.InsertProducers | Libraries/xcexecution/Sources/SimpleExecutor.cpp:123-140 | exactly the edges to recorded producers of the given paths are added |
| SimpleExecutors.InsertPhaseEdges | Libraries/xcexecution/Sources/SimpleExecutor.cpp:142-149 | exactly the edges from the next phase to the invocation are added |
| SimpleExecutors.InsertInvocation | Libraries/xcexecution/Sources/SimpleExecutor.cpp:119-150 | after one iteration the graph holds exactly the edges of one more invocation |
| NinjaExecutors.BuildAction | Libraries/xcexecution/Sources/NinjaExecutor.cpp:518-702 | fails exactly when the main file cannot be written or a target with an environment cannot be built: an executable or the name of a dependency info format is missing, or its files cannot be written; otherwise the explicit, the implicit and the order-only dependencies written are each exactly those of the targets with an environment and of the regeneration, the begin node of each target and every phony input that no running invocation writes get a rule, and there is no rule without dependencies besides |
| NinjaExecutors.BuildTarget | Libraries/xcexecution/Sources/NinjaExecutor.cpp:599-671 | one target adds exactly its own edges of each kind: begin after the finish of each dependency, auxiliary files, phases, invocations, finish after the last phase; its begin node and its phony inputs get rules |
| NinjaExecutors.BuildTargetInvocations | Libraries/xcexecution/Sources/NinjaExecutor.cpp:708-812 | the file of one target has exactly the edges, of each kind, for its auxiliary files, its phases in ascending order of priority, and its invocations; there is none exactly when an executable or the name of a format is missing or the files cannot be written |
| NinjaExecutors.WritePhases | Libraries/xcexecution/Sources/NinjaExecutor.cpp:752-775 | each phase begins after the one of the next lower priority finishes, the lowest after the auxiliary files; it finishes after its own beginning and all its outputs; all of these are explicit dependencies |
| NinjaExecutors.GroupOutputs | Libraries/xcexecution/Sources/NinjaExecutor.cpp:741-750 | every priority in use with exactly the outputs of its invocations, those without executable included |
| NinjaExecutors.BuildInvocation | Libraries/xcexecution/Sources/NinjaExecutor.cpp:877-1012 | fails exactly when a dependency info format has no name; the outputs depend explicitly on the inputs, implicitly on the input dependencies, and for the order only on the order dependencies and the beginning of the phase, and on nothing else |
| NinjaExecutors.BuildAuxiliaryFile | Libraries/xcexecution/Sources/NinjaExecutor.cpp:814-874 | an auxiliary file depends explicitly on its chunks, and for the order only on the beginning of the target |
| NinjaExecutors.PhonyInputs | Libraries/xcexecution/Sources/NinjaExecutor.cpp:636-661 | a rule without dependencies for exactly the phony inputs that no running invocation writes |
| NinjaExecutors.MaxInvocationPriority | Libraries/xcexecution/Sources/NinjaExecutor.cpp:663-671 | the greatest priority in use, 0 without invocations |
| NinjaExecutors.PhaseBeginsLate | Libraries/xcexecution/Sources/NinjaExecutor.cpp:752-775 | every phase reaches, over any number of edges, the beginning of its target and the end of every lower phase |
| NinjaExecutors.InvocationFollowsLowerPhases | Libraries/xcexecution/Sources/NinjaExecutor.cpp:752-796 | an executable invocation reaches the beginning of its target and every output of every lower phase |
| NinjaExecutors.FinishFollowsOutputs | Libraries/xcexecution/Sources/NinjaExecutor.cpp:666-671 | the finish node of a target reaches every output |
| NinjaExecutors.InvocationFollowsDependency | Libraries/xcexecution/Sources/NinjaExecutor.cpp:596-609 | with an edge in the target graph every executable invocation reaches every output of the target depended on |
| NinjaExecutors.BuildOrderIsKept | Libraries/xcexecution/Sources/NinjaExecutor.cpp:567-584 | every order of building that respects the written edges runs an invocation after all outputs of lower phases of its target and after all outputs of the targets depended on |
| NinjaExecutors.BuildOrderIsKeptAlongChains | Libraries/xcexecution/Sources/NinjaExecutor.cpp:567-609 | the same along a chain of target dependencies in which no target in between is without invocations |
| NinjaExecutors.InvocationFollowsChain | Libraries/xcexecution/Sources/NinjaExecutor.cpp:567-609 | along such a chain an executable invocation of the first target reaches every output of the last |
| NinjaExecutors.SchedulesRespectReach | Libraries/xcexecution/Sources/NinjaExecutor.cpp:561-584 | what holds for edges holds for chains of edges |
| NinjaExecutors.OutputIsOutOfDateExactly | Libraries/xcexecution/Sources/NinjaExecutor.cpp:978-1010 | where nothing else writes it, a newer file makes an output out of date exactly when it is an input or an input dependency; exactly the order dependencies and the beginning of the phase come first without doing so |
| NinjaExecutors.AuxiliaryIsOutOfDateExactly | Libraries/xcexecution/Sources/NinjaExecutor.cpp:814-874 | where nothing else has its name, a newer file makes an auxiliary file out of date exactly when it is one of its chunks; the beginning of the target alone comes first without doing so |
| NinjaExecutors.NodeIsOutOfDateExactly | Libraries/xcexecution/Sources/NinjaExecutor.cpp:602-671 | where nothing else has its name, a node of a target or of a phase is out of date by everything that it is built after |
| NinjaExecutors.EdgesOfName | Libraries/xcexecution/Sources/NinjaExecutor.cpp:586-671 | where nothing else has a name, its dependencies of each kind are exactly those of its role |
| NinjaExecutors.NodeNames | Libraries/xcexecution/Sources/NinjaExecutor.cpp:49-77 | the names of the nodes of a target and of its phases |
| NinjaExecutors.PriorityIsSigned | Libraries/xcexecution/Sources/NinjaExecutor.cpp:67-77 | the priority in a name is its decimal text as a signed number of 32 bits |
| NinjaExecutors.NodesUsedAreDefined | Libraries/xcexecution/Sources/NinjaExecutor.cpp:586-671 | every begin, auxiliary, phase and finish node that a target depends on has a rule, when the target has an invocation and its dependencies have environments, whatever the names |
| NinjaExecutors.DefinedExactly | Libraries/xcexecution/Sources/NinjaExecutor.cpp:567-671 | a name has a rule exactly when the regeneration writes it or it is, for a target with an environment, a node, a phase in use, an auxiliary file, an output of a running invocation or a phony input |
| NinjaExecutors.LastPhaseIsDefinedExactly | Libraries/xcexecution/Sources/NinjaExecutor.cpp:663-671 | where no other name equals it, the node that a target finishes after has a rule exactly when the target has an invocation |
| NinjaExecutors.FinishIsDefinedExactly | Libraries/xcexecution/Sources/NinjaExecutor.cpp:596-609 | where no other name equals it, the finish node of a target has a rule exactly when the target is built and has an environment |
| NinjaExecutors.NodesUsedAreDefinedExactly | Libraries/xcexecution/Sources/NinjaExecutor.cpp:586-671 | where these names are not shared, all nodes that a target depends on have rules exactly when it has an invocation and all its dependencies have environments |
| NinjaExecutors.AggregateHasNoLastPhase | Libraries/xcexecution/Sources/NinjaExecutor.cpp:663-671 | the build of one target without invocations: its finish node depends on a node that has no rule |
| HeaderMaps.HeaderMap.Add | Libraries/pbxbuild/Sources/HeaderMap.cpp:150-194 | refused exactly for an empty string or a known key; otherwise the accepted triples grow by this one, and the occupied buckets decode to exactly the multiset of accepted triples, whether or not the table grew; starting from the empty map the known keys are exactly those whose string was not interned before |
| HeaderMaps.HeaderMap.Rehash | Libraries/pbxbuild/Sources/HeaderMap.cpp:210-235 | no entry is lost although positions are probed modulo the old count; afterwards the count is the new one, and with an unchanged count every entry can be found by probing |
| HeaderMaps.HeaderMap.Set | Libraries/pbxbuild/Sources/HeaderMap.cpp:266-280 | the probe finds a free bucket and fills it with the entry, changing no other bucket |
| HeaderMaps.HeaderMap.Grow | Libraries/pbxbuild/Sources/HeaderMap.cpp:196-208 | the table doubles exactly when one more entry would reach three quarters of the buckets; no entry is lost |
| HeaderMaps.HeaderMap.Intern | Libraries/pbxbuild/Sources/HeaderMap.cpp:237-264 | a string is interned once, behind a reserved zero byte; all earlier offsets keep their strings; only a new string added as key becomes a key |
| HeaderMaps.HeaderMap.Insert | Libraries/pbxbuild/Sources/HeaderMap.cpp:177-186 | the bucket is added to the table, whatever growth it takes |
| HeaderMaps.HeaderMap.Write | Libraries/pbxbuild/Sources/HeaderMap.cpp:113-137 | the file is the header, the buckets and the strings, at the places that HeaderFormat, BucketFormat and StringsFormat give in numbers; every entry is reachable from its hash without crossing a free bucket |
| HeaderMaps.HeaderMap.Read | Libraries/pbxbuild/Sources/HeaderMap.cpp:41-111 | a rejected file leaves an empty map, or no change when too short for a header; an accepted one replaces the map by what the file says |
| HeaderMaps.HeaderMap.Invalidate | Libraries/pbxbuild/Sources/HeaderMap.cpp:139-148 | the map is emptied |
| HeaderMaps.InHashOrder | Libraries/pbxbuild/Sources/HeaderMap.cpp:218-226 | the occupied buckets, all of them, in ascending order of their new hash |
| HeaderMaps.FillKeepsReachable | Libraries/pbxbuild/Sources/HeaderMap.cpp:266-280 | filling the first free bucket on an entry's probe path keeps every other entry reachable |
| HeaderMaps.LookupFindsAccepted | Libraries/pbxbuild/Sources/HeaderMap.cpp:113-137 | in a reachable table looking a key up succeeds exactly for the keys of accepted triples, letter case aside |
| HeaderMaps.NothingCut | Libraries/pbxbuild/Sources/HeaderMap.cpp:252 | the table holds the accepted triples themselves exactly when no string has a NUL byte |
| HeaderMaps.RefusedExactly | Libraries/pbxbuild/Sources/HeaderMap.cpp:156-167 | after any accepted additions a key is refused exactly when the string of one of them with that key, letter case aside, was new when it was added |
| HeaderMaps.RememberedExactly | Libraries/pbxbuild/Sources/HeaderMap.cpp:247-260 | the known keys are exactly those of additions whose string was new |
| HeaderMaps.AcceptedKeysAreUniqueExactly | Libraries/pbxbuild/Sources/HeaderMap.cpp:156-167 | accepted keys differ, letter case aside, now and after all later additions exactly when the string of each was new when it was accepted |
| HeaderMaps.StringHasOrigin | Libraries/pbxbuild/Sources/HeaderMap.cpp:237-264 | the interned strings are those of the accepted keys, prefixes and suffixes |
| HeaderMaps.PrefixAsKeyRepeats | Libraries/pbxbuild/Sources/HeaderMap.cpp:156-167 | a key that was a prefix first can be accepted again and again |
| HeaderMaps.EntryListIsEntries | Libraries/pbxbuild/Sources/HeaderMap.cpp:218-230 | the list of decoded buckets has the multiset of entries |
| HeaderMaps.WriteAndRead | Libraries/pbxbuild/Sources/HeaderMap.cpp:41-137 | a written map is read back, into a valid map, with the same buckets, strings and entries |
| HeaderMapTables.CanonicalIsLowerCase | Libraries/pbxbuild/Sources/HeaderMap.cpp:19-27 | of a key only capital letters are changed, to small ones |
| HeaderMapTables.LookupFindsEveryEntry | Libraries/pbxbuild/Sources/HeaderMap.cpp:118-120 | linear probing from the hash finds a key exactly when some bucket holds it |
| HeaderMapTables.FindTarget | Libraries/pbxbuild/Sources/HeaderMap.cpp:266-280 | as long as three buckets below the count are free, the probe meets a free one before the place where the loop gives up |
| HeaderMapTables.ProbeAdvances | Libraries/pbxbuild/Sources/HeaderMap.cpp:269 | each probe step comes nearer to the free bucket and does not meet the end of the loop first |
| HeaderMapTables.HashIgnoresCase | Libraries/pbxbuild/Headers/pbxbuild/HMapFile.h:50-57 | keys that differ only in case have the same hash, characters above 127 counting as negative |
| HeaderMapTables.HashOfOne | Libraries/pbxbuild/Headers/pbxbuild/HMapFile.h:50-57 | the hash of a character is thirteen times its small letter, from 128 on as a negative number in 32 bits |
| HeaderMapTables.HashAdds | Libraries/pbxbuild/Headers/pbxbuild/HMapFile.h:50-57 | hashes of parts add up, in 32 bits |
| HeaderMapTables.EntriesCount | Libraries/pbxbuild/Sources/HeaderMap.cpp:273-276 | the number of entries is the number of occupied buckets |
| HeaderMapFiles.FileRoundTrip | Libraries/pbxbuild/Sources/HeaderMap.cpp:122-136 | header, buckets and strings are read back from the bytes of the file |
| HeaderMapFiles.HeaderFormat | Libraries/pbxbuild/Headers/pbxbuild/HMapFile.h:35-45 | the magic characters, version and reserved field byte by byte, then at 8, 12, 16 and 20 the offset of the strings, the numbers of entries and buckets and the greatest length, low byte first |
| HeaderMapFiles.BucketFormat | Libraries/pbxbuild/Headers/pbxbuild/HMapFile.h:28-33 | bucket n has its key at 24 + 12 * n, its prefix 4 and its suffix 8 bytes further, low byte first |
| HeaderMapFiles.StringsFormat | Libraries/pbxbuild/Sources/HeaderMap.cpp:125-134 | the strings begin at 24 + 12 * count |
| HeaderMapFiles.ReadableExactly | Libraries/pbxbuild/Sources/HeaderMap.cpp:44-76 | exactly the files of at least 24 bytes are read that begin with the magic characters, version 1 and zeros, name strings no later than their end, and no more buckets than follow the header |
| HeaderMapFiles.ReadFormat | Libraries/pbxbuild/Sources/HeaderMap.cpp:48-81 | the header fields and the key, prefix and suffix of each bucket are read from these same places |
| Boms.BomContext.constructor | Libraries/libbom/Sources/bom.c:40-81 | an empty store: no blocks, no variables, a valid layout; its bytes are those that EmptyFormat gives |
| Boms.BomContext.AddressUpdateAll | Libraries/libbom/Sources/bom.c:149-173 | all stored offsets at or behind the point move by the difference, and nothing else changes |
| Boms.BomContext.AddressResize | Libraries/libbom/Sources/bom.c:175-182 | bytes behind the point move with their offsets: same blocks and variables in a longer buffer |
| Boms.BomContext.IndexReserve | Libraries/libbom/Sources/bom.c:238-259 | exactly that many more index slots; same blocks and variables |
| Boms.BomContext.IndexAdd | Libraries/libbom/Sources/bom.c:261-309 | a new block under the next index, at the end of the buffer; earlier blocks and variables unchanged, all blocks moved by the same distance; the index grows only when no reserved slot is left |
| Boms.BomContext.GrowIndexIfFull | Libraries/libbom/Sources/bom.c:268-287 | the index grows by one entry exactly when no slot is left |
| Boms.BomContext.AppendBlock | Libraries/libbom/Sources/bom.c:289-308 | the data goes to the end of the buffer under the next index |
| Boms.BomContext.IndexGet | Libraries/libbom/Sources/bom.c:211-236 | exactly the bytes stored under an index, nothing for an unknown one |
| Boms.BomContext.WriteBlock | Libraries/libbom/Sources/bom.c:211-236 | writing through the returned pointer changes that part of that block alone |
| Boms.BomContext.WriteAt | Libraries/libbom/Sources/bom.c:211-236 | writing through such a pointer anywhere in the data area changes no field of the layout and no variable |
| Boms.BomContext.IndexAppend | Libraries/libbom/Sources/bom.c:348-370 | a block gets longer by the given room, its old bytes first, all other blocks and variables unchanged; an empty block leaves an invalid buffer where another block or the end of the buffer follows it |
| Boms.AppendNeedsContent | Libraries/libbom/Sources/bom.c:348-370 | lengthening a block keeps the layout valid exactly when the block is not empty, wherever another block or the end of the buffer follows it |
| Boms.BomContext.FreeIndicesAdd | Libraries/libbom/Sources/bom.c:311-346 | that many empty entries behind the others; the buffer stays valid exactly when there are reserved slots for them or one is asked for |
| Boms.BomContext.VariableAdd | Libraries/libbom/Sources/bom.c:435-471 | one more variable behind the others, with the stored part of the name; blocks unchanged |
| Boms.BomContext.VariableGet | Libraries/libbom/Sources/bom.c:424-433 | the index of the first variable of that name, or -1 |
| Boms.BomContext.VariablesEnd | Libraries/libbom/Sources/bom.c:440-446 | where the variables end |
| Boms.BindingAfterAdd | Libraries/libbom/Sources/bom.c:412-471 | adding a variable changes no earlier binding |
| Boms.AddedVariableIsFound | Libraries/libbom/Sources/bom.c:435-471 | a new name is found again exactly when its length fits the length byte |
| Boms.FreeGrowthIsConsistentForOne | Libraries/libbom/Sources/bom.c:323-333 | without reserved slots the buffer that is left in the end, entries cleared and count raised, is valid exactly for one entry |
| Boms.FreeSteps | Libraries/libbom/Sources/bom.c:332-345 | with enough slots the cleared entries become empty blocks and nothing else changes |
| Boms.EmptyBomIsValid | Libraries/libbom/Sources/bom.c:54-79 | the sixty bytes of an empty store form a valid layout |
| BomFormats.EmptyFormat | Libraries/libbom/Sources/bom.c:40-81 | the sixty bytes of a new store in numbers |
| BomFormats.SignatureFormat | Libraries/libbom/Headers/bom/bom_format.h:71-79 | a buffer with the signature that every operation keeps begins with the magic characters and version 1 |
| BomFormats.HeaderFormat | Libraries/libbom/Headers/bom/bom_format.h:71-79 | the offsets of the header fields in numbers, high byte first |
| BomFormats.IndexFormat | Libraries/libbom/Headers/bom/bom_format.h:81-89 | entry i of the index has its address at 4 + 8 * i behind the start of the index and its length 4 bytes further, high byte first |
| BomFormats.VariableFormat | Libraries/libbom/Headers/bom/bom_format.h:91-100 | each variable, at its place behind the ones before it: the index in four bytes, the length in one, the name |
| BomUpdates.UpdateAndMoveResize | Libraries/libbom/Sources/bom.c:175-182 | updating the offsets and then moving the tail resizes the buffer consistently |
| BomUpdates.GrowSteps | Libraries/libbom/Sources/bom.c:247-257 | enlarging, clearing and recording the index area keeps blocks and variables |
| BomUpdates.AddDataSteps | Libraries/libbom/Sources/bom.c:289-308 | the writes that append a block keep the other blocks in place |
| BomUpdates.AppendSteps | Libraries/libbom/Sources/bom.c:355-369 | the writes that lengthen a block keep the others in place and apart |
| BomUpdates.VariableSteps | Libraries/libbom/Sources/bom.c:448-470 | the writes that append a variable keep the layout consistent |
| BomLayouts.VariablesAppend | Libraries/libbom/Sources/bom.c:448-470 | a variable written behind n others is read as the next one |
| BomTrees.BomTreeContext.constructor | Libraries/libbom/Sources/bom_tree.c:52-93 | two new blocks, the tree right behind its leaf, an empty tree in them, and one more variable; a new name finds the tree again exactly when it has fewer than 256 bytes, a name bound before stays bound to what it was; older blocks unchanged |
| BomTrees.BomTreeContext.Iterate | Libraries/libbom/Sources/bom_tree.c:144-183 | every pair of the tree, in stored order |
| BomTrees.BomTreeContext.Reserve | Libraries/libbom/Sources/bom_tree.c:185-196 | room for more pairs; the pairs and all other blocks are unchanged, and the tree stays behind its leaf |
| BomTrees.BomTreeContext.Add | Libraries/libbom/Sources/bom_tree.c:198-274 | with room in the leaf and fewer than 65535 pairs exactly the given pair is inserted, all other pairs keep their relative order, no other block changes; for a tree behind its leaf, as every new one is, the tree stays a tree exactly then |
| BomTrees.BomTreeContext.Search | Libraries/libbom/Sources/bom_tree.c:229-262 | the last position probed by the binary search, about which SearchHalves, ProbeIsBeside and OrderAfterAdd say where it lies |
| BomTrees.CompareIsLexicographic | Libraries/libbom/Sources/bom_tree.c:243-250 | keys are ordered by the first byte in which they differ, the lower one first, and a proper prefix comes first |
| BomTrees.SearchHalves | Libraries/libbom/Sources/bom_tree.c:229-260 | the search looks at the key in the middle, then goes on as the search of the half that it points to, and ends at the middle when that half is empty |
| BomTrees.ProbeIsBeside | Libraries/libbom/Sources/bom_tree.c:229-262 | over ordered keys the search ends at an equal key, at the first greater one, or at the last smaller one |
| BomTrees.OrderAfterAdd | Libraries/libbom/Sources/bom_tree.c:229-266 | ordered keys stay ordered exactly when the tree was empty or the new key is not greater than the one it is put in front of; distinct ones stay distinct and ordered exactly when it is less |
| BomTrees.GreatestKeyLosesOrder | Libraries/libbom/Sources/bom_tree.c:229-266 | a key greater than all others always loses the order of a tree that is not empty, a key less than all others never does |
| BomTrees.StoredInOrder | Libraries/libbom/Sources/bom_tree.c:198-274 | over any run of additions the tree is in order exactly when it was before the last one and that one kept the order: lost order does not come back |
| BomTrees.DescendingKeysAreSorted | Libraries/libbom/Sources/bom_tree.c:229-266 | pairs added by descending keys are stored in ascending order |
| BomTrees.AscendingKeysAreNotSorted | Libraries/libbom/Sources/bom_tree.c:229-266 | pairs added by ascending keys are in order exactly when there is at most one |
| BomTrees.BomTreeContext.WritePair | Libraries/libbom/Sources/bom_tree.c:262-273 | the moves and writes of the pair and of both counts, wherever in the buffer they end up |
| BomTrees.InsertAtKeeps | Libraries/libbom/Sources/bom_tree.c:264-266 | an insertion adds one element and keeps the others in order |
| BomTrees.LeafInserted | Libraries/libbom/Sources/bom_tree.c:262-273 | the writes into the leaf insert the pair at the position |
| BomTrees.PairInserted | Libraries/libbom/Sources/bom_tree.c:206-274 | as pairs of contents the tree gained exactly the new one |
| BomFormats.NewTreeFormat | Libraries/libbom/Sources/bom_tree.c:74-87 | all bytes of the two blocks of a new tree |
| BomFormats.TreeFormat | Libraries/libbom/Headers/bom/bom_format.h:102-109 | the magic characters, the leaf and the count at their places in a tree block |
| BomFormats.PairFormat | Libraries/libbom/Headers/bom/bom_format.h:111-122 | pair i of a leaf has its value index at 12 + 8 * i and its key index 4 bytes further; the header of the leaf says that it is a leaf, its count, and no next leaf |
| BomTrees.RoomCheckNeverFires | Libraries/libbom/Sources/bom_tree.c:215-227 | the room check does not count the leaf header, so in a leaf that holds its pairs it never asks for more room |
| BomTrees.WritesInside | Libraries/libbom/Sources/bom_tree.c:262-273 | with room in the leaf the raw writes insert the pair and change no other block |
| BomTrees.OnlyTheTreeIsHit | Libraries/libbom/Sources/bom_tree.c:262-273 | when the tree follows its leaf the writes touch no third block, room or not |
| BomTrees.TreeIsOverwritten | Libraries/libbom/Sources/bom_tree.c:262-273 | without room the magic number of the tree behind the leaf becomes a block index, which it never equals |
| BomTrees.CountWraps | Libraries/libbom/Sources/bom_tree.c:270-273 | at the 65536th pair the 16-bit count of the leaf starts again at 0 and disagrees with that of the tree |
| BomTrees.AddToNewTree | Libraries/libbom/Sources/bom_tree.c:198-274 | adding to a new tree without reserving room first leaves no tree |
| BomTrees.TreeFrame | Libraries/libbom/Sources/bom_tree.c:144-183 | blocks beyond a tree do not change what it means |
| CarWriters.Write | Libraries/libcar/Sources/Writer.cpp:81-191 | with the four names unbound: the header and key format are stored under their names, the two trees hold exactly the facets and the renditions in the order of insertion by the search, earlier contents stay, and the reserved slots are used up exactly, so that the index area is never resized again |
| CarWriters.AddTree | Libraries/libcar/Sources/Writer.cpp:144-158 | a tree of exactly the given pairs under a new name |
| CarWriters.AddNamed | Libraries/libcar/Sources/Writer.cpp:119-120 | a block stored and bound to its name |
| CarWriters.AddAll | Libraries/libcar/Sources/Writer.cpp:148-156 | adding pairs one by one stores exactly what the run of insertions gives and touches no other block |
| CarWriters.StoredIsPermutation | Libraries/libcar/Sources/Writer.cpp:148-156 | such a run keeps every pair and adds none |
| BomFormats.CarNames | Libraries/libcar/Sources/car_format.c:11-14 | the four names that a catalog binds |
| CarWriters.ContentsKept | Libraries/libcar/Sources/Writer.cpp:81-191 | what an earlier step stored is still stored after the later ones |
| SettingValues.ParseValue | Libraries/pbxsetting/Sources/Value.cpp:129-218 | terminates on every string; equals the scan, although a failed reference is retried from a position before the dollar sign |
| SettingValues.ParseString | Libraries/pbxsetting/Sources/Value.cpp:220-224 | the outermost scan never fails |
| SettingValues.IdentifierCharacters | Libraries/pbxsetting/Sources/Value.cpp:154 | letters, digits and the underscore are exactly the characters of a bare name |
| SettingValues.ReferenceForms | Libraries/pbxsetting/Sources/Value.cpp:140-192 | a name between parentheses or between braces is a reference; not closed by the delimiter that belongs to the opening, all is text |
| SettingValues.BareForm | Libraries/pbxsetting/Sources/Value.cpp:153-163 | a dollar sign before identifier characters is a reference to all of them, and what follows is text |
| SettingValues.Raw | Libraries/pbxsetting/Sources/Value.cpp:67-84 | the printed form: texts as they are, references in parentheses |
| SettingValues.Add | Libraries/pbxsetting/Sources/Value.cpp:98-114 | concatenation, with the texts at the seam joined |
| SettingValues.RetryFindsTheSame | Libraries/pbxsetting/Sources/Value.cpp:214-216 | advancing the search by the length of the opener, not past the dollar sign, skips nothing |
| SettingValues.ReadsBackExactly | Libraries/pbxsetting/Sources/Value.cpp:67-224 | a value is read back from its printed form exactly when its texts are not empty and not adjacent, those inside references have no closing parenthesis, and no dollar sign of a text opens a reference that is found |
| SettingValues.SkipInert | Libraries/pbxsetting/Sources/Value.cpp:129-218 | dollar signs that open nothing are skipped like other text |
| SettingValues.PrintsBackExactly | Libraries/pbxsetting/Sources/Value.cpp:67-224 | a string is printed back exactly when it has no reference without delimiters and no closed one in braces; unclosed parentheses and braces are allowed |
| SettingValues.BraceShows | Libraries/pbxsetting/Sources/Value.cpp:67-224 | every closed reference in braces shows as a parenthesis in the printed form, wherever the parser meets it |
| SettingValues.PrintingAddsParentheses | Libraries/pbxsetting/Sources/Value.cpp:67-224 | for every string the printed form is longer by two characters for each reference without delimiters, and by nothing else |
| SettingValues.ParseKeepsText | Libraries/pbxsetting/Sources/Value.cpp:67-224 | for every string no text is lost: up to delimiters the printed form is the string |
| SettingValues.ScanIsTidy | Libraries/pbxsetting/Sources/Value.cpp:178-204 | whatever is parsed has no empty and no adjacent texts |
| SettingValues.ConcatReadsBack | Libraries/pbxsetting/Sources/Value.cpp:98-114 | for all values: their sum is what parsing the joined texts gives exactly when the sum is tidy, holds no closing parenthesis inside a reference, and no dollar sign of its texts opens a reference in the joined text |
| SettingValues.TidyConcatReadsBack | Libraries/pbxsetting/Sources/Value.cpp:98-114 | for values that are tidy and closed themselves only the dollar signs decide, and without any there is no exception |
| SettingValues.SeamOpensReference | Libraries/pbxsetting/Sources/Value.cpp:98-114 | a dollar sign at the end of one text and a parenthesis at the start of the next: the joined text is a reference, the sum is a text |
| SettingValues.ConcatPrints | Libraries/pbxsetting/Sources/Value.cpp:98-114 | the printed sum is the concatenation of the printed values |
| SettingEnvironments.Environment.ResolveValue | Libraries/pbxsetting/Sources/Environment.cpp:116-156 | where resolution has finite depth, the method ends and gives the specified text |
| SettingEnvironments.Environment.ResolveInheritance | Libraries/pbxsetting/Sources/Environment.cpp:158-170 | the definition in the first later level, resolved in its context |
| SettingEnvironments.Environment.ResolveAssignment | Libraries/pbxsetting/Sources/Environment.cpp:172-190 | the definition in the first level, or without condition if there is none |
| SettingEnvironments.Environment.Expand | Libraries/pbxsetting/Sources/Environment.cpp:192-196 | the expansion of an expression outside any definition |
| SettingEnvironments.Environment.Resolve | Libraries/pbxsetting/Sources/Environment.cpp:204-208 | the resolution of a setting |
| SettingEnvironments.Environment.Operate | Libraries/pbxsetting/Sources/Environment.cpp:141-149 | the operations behind the colons of a reference are applied, as ReferenceAppliesOperations says |
| SettingEnvironments.ReferenceAppliesOperations | Libraries/pbxsetting/Sources/Environment.cpp:131-147 | for a name and operations free of colons, joined by colons: the setting of that name is resolved, then exactly these operations, without their colons, are applied from left to right |
| SettingEnvironments.ExpressionAppliesOperations | Libraries/pbxsetting/Sources/Environment.cpp:126-150 | an expression of one reference with operations expands to the resolved setting with these operations applied |
| SettingEnvironments.Environment.InsertFront | Libraries/pbxsetting/Sources/Environment.cpp:232-241 | defaults stay behind all others; a level in front of its group overrides what is behind it |
| SettingEnvironments.Environment.InsertBack | Libraries/pbxsetting/Sources/Environment.cpp:243-252 | defaults stay behind all others; a default level at the back overrides nothing |
| SettingEnvironments.ResolvesExactlyWhenNotCircular | Libraries/pbxsetting/Sources/Environment.cpp:116-190 | in every scope, computed names included: a setting resolves exactly when it lies in no set of settings, each as some level on defines it, in which each one enters another one of the set |
| SettingEnvironments.ExpandsExactlyWhenNotCircular | Libraries/pbxsetting/Sources/Environment.cpp:116-196 | an expression expands exactly when it enters no such setting |
| SettingEnvironments.NeverExactlyWhenCircular | Libraries/pbxsetting/Sources/Environment.cpp:116-190 | the same for every setting as the levels from any level on define it |
| SettingEnvironments.EdgesOfLiteral | Libraries/pbxsetting/Sources/Environment.cpp:122-150 | with literal names a setting enters exactly what the references of its definition in force name: the inherited value below, or the setting as assigned |
| SettingEnvironments.CirclesAreFinite | Libraries/pbxsetting/Sources/Environment.cpp:116-190 | with literal names only the finitely many settings named in the scope have to be considered |
| SettingEnvironments.RankedIsNotCircular | Libraries/pbxsetting/Sources/Environment.cpp:116-190 | a rank that falls along every reference rules circles out |
| SettingEnvironments.OperationOnItselfNeverResolves | Libraries/pbxsetting/Sources/Environment.cpp:128-150 | a definition that refers to its own setting with an operation never resolves |
| SettingEnvironments.InheritingOverrideNeverResolves | Libraries/pbxsetting/Sources/Environment.cpp:158-190 | a circle through an inherited definition: A inherits a definition that refers to B, and B refers to A |
| SettingEnvironments.OverrideByTextResolves | Libraries/pbxsetting/Sources/Environment.cpp:172-190 | the same with A overridden by a text: both resolve to it |
| SettingEnvironments.ResolutionIsUnique | Libraries/pbxsetting/Sources/Environment.cpp:116-190 | a setting resolves to one text at most |
| SettingEnvironments.ResolvesToFirstDefinition | Libraries/pbxsetting/Sources/Environment.cpp:116-190 | whatever the names: a setting resolves to its first definition, with names computed and self references replaced by what strictly later levels resolve to, and fails with any of these |
| SettingEnvironments.DefinitionIsRewritten | Libraries/pbxsetting/Sources/Environment.cpp:116-156 | expanding inside a definition is expanding the definition so rewritten outside of any |
| SettingEnvironments.ResolvesToSubstitutedDefinition | Libraries/pbxsetting/Sources/Environment.cpp:116-190 | with literal names the rewritten definition is the definition with its self references replaced |
| SettingEnvironments.InheritanceIsSubstitution | Libraries/pbxsetting/Sources/Environment.cpp:128-131 | resolving inside a definition is resolving the definition with the inherited text put in |
| SettingEnvironments.ExpandedOfSum | Libraries/pbxsetting/Sources/Environment.cpp:116-156 | expanding a sum of values is expanding each and concatenating |
| SettingEnvironments.EarlierLevelsWin | Libraries/pbxsetting/Sources/Environment.cpp:177-183 | the definition in force over two lists of levels is that of the first list, if it has one |
| SettingEnvironments.GoverningDefinitionDecides | Libraries/pbxsetting/Sources/Environment.cpp:158-190 | a setting that no level defines, under the condition or without one, is empty; a definition that is a text is that text; a reference to another setting is what that one resolves to, under no condition when the definition was found under none |
| SettingEnvironments.GetsLastMatch | Libraries/pbxsetting/Sources/Level.cpp:27-37 | within a level the last matching setting wins; none is found only if none matches |
| SettingEnvironments.ConditionOfOne | Libraries/pbxsetting/Sources/Condition.cpp:26-42 | a required value is the pattern that the actual value of the same key must match; nothing required is always satisfied |
| SettingEnvironments.ConditionOfMore | Libraries/pbxsetting/Sources/Condition.cpp:26-42 | a condition with several keys is satisfied when each part of it is |
| SettingEnvironments.LevelGet | Libraries/pbxsetting/Sources/Level.cpp:27-37 | the backward search gives that setting |
| Paths.NormalizePathComponents | Libraries/libutil/Sources/Relative.cpp:25-86 | the loop with its skipping of separator runs collects the components of the normal form |
| Paths.NormalizedComponents | Libraries/libutil/Sources/Relative.cpp:88-116 | the root, if absolute, and the components of the normal form |
| Paths.Normalized | Libraries/libutil/Sources/Relative.cpp:118-146 | the printed normal form |
| Paths.NormalFormLeadsToTheSame | Libraries/libutil/Sources/Relative.cpp:25-86 | from every directory the normal form leads where the path leads, the parent of the root being the root |
| Paths.ComponentsAreNormal | Libraries/libutil/Sources/Relative.cpp:25-86 | no empty or `.` component, `..` only as a leading run of a relative path |
| Paths.NormalisingIsIdempotent | Libraries/libutil/Sources/Relative.cpp:118-146 | normalising again changes nothing |
| Paths.EqualExactlyWhenSameDestination | Libraries/libutil/Sources/Relative.cpp:118-146 | two paths have the same normal form, which is what equality of paths compares, exactly when they lead to the same place from every directory |
| Paths.NormalFormsAreUnique | Libraries/libutil/Sources/Relative.cpp:25-86 | different relative normal forms lead to different places from some directory |
| Paths.PrintedReadsBack | Libraries/libutil/Sources/Relative.cpp:118-146 | a printed normal form is read back with its kind and components |
| Paths.ChildLeadsOn | Libraries/libutil/Sources/Relative.cpp:199-215 | a child is reached through its parent |
| Paths.ResolvedLeadsToTheSame | Libraries/libutil/Sources/Relative.cpp:159-179 | a resolved path is absolute and leads where the path leads from the base |
| Paths.From | Libraries/libutil/Sources/Absolute.cpp:24-77 | the text of the route: one `..` for each component beyond the longest common prefix, then the rest of the path; never fails |
| Paths.FromThenResolved | Libraries/libutil/Sources/Absolute.cpp:24-77 | for all absolute paths: the relative path from one to another, resolved against the one and normalised, is the normal form of the other |
| Paths.RouteLeadsThere | Libraries/libutil/Sources/Absolute.cpp:61-74 | the route leads from the one place to the other |
| Paths.RouteSkipsCommon | Libraries/libutil/Sources/Absolute.cpp:44-76 | what both places have in common is left out: one step up for each other component of the origin, then the other components of the target |
| Paths.CommonFrom | Libraries/libutil/Sources/Absolute.cpp:41-59 | the common prefix that the loop skips is the longest |
| Md5.Md5State.Append | Libraries/libutil/Sources/md5.c:322-358 | the state stays that of the whole message so far: bit count modulo 2^64, registers after all whole blocks, rest in the buffer |
| Md5.Md5State.Finish | Libraries/libutil/Sources/md5.c:360-381 | the digest is the compression folded over the padded message, and the stream ends on a block boundary |
| Md5.Md5State.constructor | Libraries/libutil/Sources/md5.c:312-320 | the state of the empty message |
| Md5.InitialBytes | Libraries/libutil/Sources/md5.c:315-319 | the registers begin as the bytes of section 3.3 of RFC 1321 |
| Md5.RegistersInOrder | Libraries/libutil/Sources/md5.c:379-380 | the digest is the four registers in order, each with its low byte first |
| Md5.LengthInOrder | Libraries/libutil/Sources/md5.c:372-374 | the number of bits with its low byte first |
| Md5.PaddedForm | Libraries/libutil/Sources/md5.c:363-378 | the message, a byte 128, zeros up to 56 modulo 64, and the number of bits in eight bytes |
| Md5.DigestOfPieces | Libraries/libutil/Sources/md5.c:312-381 | however a message is split into pieces, the digest is that of the whole |
| Md5.CountAdds | Libraries/libutil/Sources/md5.c:334-337 | the two words count eight bits a byte modulo 2^64, carry included |
| Md5.OffsetIsPosition | Libraries/libutil/Sources/md5.c:327 | the offset taken from the low word is the message length modulo 64 |
| Md5.PadIsPadding | Libraries/libutil/Sources/md5.c:375 | the computed length of the padding is that of section 3.1 of RFC 1321 |
| Md5.PaddingIsUnambiguous | Libraries/libutil/Sources/md5.c:360-377 | messages of less than 2^61 bytes that pad to the same bytes are the same |
| Md5.FoldedInPart | Libraries/libutil/Sources/md5.c:339-349 | completing a partial block processes it, extending it changes no register |
| MakefileDependencyInfos.Serialize | Libraries/dependency/Sources/MakefileDependencyInfo.cpp:25-59 | the text of the records, separated by empty lines, in the layout of FileForm |
| MakefileDependencyInfos.FileForm | Libraries/dependency/Sources/MakefileDependencyInfo.cpp:30-56 | outputs with a space between them, a colon, each input on a continued line of its own, an empty line between records |
| MakefileDependencyInfos.Deserialize | Libraries/dependency/Sources/MakefileDependencyInfo.cpp:61-210 | the loop is the state machine; the backslash it replaces is always there, and an output is never empty at its colon |
| MakefileDependencyInfos.RulesAreRead | Libraries/dependency/Sources/MakefileDependencyInfo.cpp:76-187 | every file of rules, remarks and empty lines is read as its rules in order: any white space or continued line between inputs, any blanks among the outputs, which are read as one, and remarks behind rules |
| MakefileDependencyInfos.FaultsAreRefused | Libraries/dependency/Sources/MakefileDependencyInfo.cpp:85-179 | a file of such lines is refused when the next line begins with a colon or a percent sign, ends before its colon, has a bare percent sign, or a second colon, whatever follows |
| MakefileDependencyInfos.EscapeMakefile | Libraries/libutil/Sources/Escape.cpp:46-61 | a backslash before each special character |
| MakefileDependencyInfos.EscapedCharacters | Libraries/libutil/Sources/Escape.cpp:52-58 | exactly white space, number signs, dollar signs, percent signs and colons get a backslash |
| MakefileDependencyInfos.ReadsBackExactly | Libraries/dependency/Sources/MakefileDependencyInfo.cpp:25-210 | records are read back exactly when each has one output, no path is empty or has a newline, colon or dollar sign, and no path ends in a backslash except the last input of the last record |
| MakefileDependencyInfos.ReadIsWellShaped | Libraries/dependency/Sources/MakefileDependencyInfo.cpp:61-210 | whatever is read has one output per record and neither empty paths nor newlines |
| MakefileDependencyInfos.RunNarrows | Libraries/dependency/Sources/MakefileDependencyInfo.cpp:76-187 | what has been read stays read: the records, outputs, inputs and the stable part of the current path are a prefix of any result |
| MakefileDependencyInfos.PathRuns | Libraries/dependency/Sources/MakefileDependencyInfo.cpp:76-187 | an escaped path is read as the path, except that colons and dollar signs keep their backslash |
| MakefileDependencyInfos.ReadsOneInput | Libraries/dependency/Sources/MakefileDependencyInfo.cpp:44-48 | one more input is read as it was written, or the file as a whole never is |
| MakefileDependencyInfos.ReadsOutput | Libraries/dependency/Sources/MakefileDependencyInfo.cpp:32-43 | likewise the output of a record |
| MemoryFilesystems.MemoryFilesystem.WalkPath | Libraries/libutil/Sources/MemoryFilesystem.cpp:84-147 | the walk with its callback gives the specified tree; a failed operation changes nothing, even when it makes directories on the way |
| MemoryFilesystems.MemoryFilesystem.Write | Libraries/libutil/Sources/MemoryFilesystem.cpp:290-311 | succeeds exactly when the parent is a directory and the path is none; then the path holds the contents and no other path changes |
| MemoryFilesystems.MemoryFilesystem.Read | Libraries/libutil/Sources/MemoryFilesystem.cpp:270-288 | the range of a file from the offset on, nothing for anything but a file |
| MemoryFilesystems.ReadsRestFromStart | Libraries/libutil/Sources/MemoryFilesystem.cpp:278-284 | without a length the rest of the file is read exactly from offset 0; otherwise as many bytes are missing at the end as were skipped |
| MemoryFilesystems.ReadsLength | Libraries/libutil/Sources/MemoryFilesystem.cpp:278-284 | a read with a length gives that many bytes from the offset on |
| MemoryFilesystems.MemoryFilesystem.Exists | Libraries/libutil/Sources/MemoryFilesystem.cpp:150-156 | whether the path holds anything |
| MemoryFilesystems.MemoryFilesystem.Type | Libraries/libutil/Sources/MemoryFilesystem.cpp:159-175 | whether it is a file or a directory |
| MemoryFilesystems.MemoryFilesystem.CreateFile | Libraries/libutil/Sources/MemoryFilesystem.cpp:248-267 | an existing file is left as it is; otherwise exactly an empty file is added |
| MemoryFilesystems.MemoryFilesystem.RemoveFile | Libraries/libutil/Sources/MemoryFilesystem.cpp:319-340 | succeeds exactly on files; exactly that path disappears |
| MemoryFilesystems.MemoryFilesystem.CreateDirectories | Libraries/libutil/Sources/MemoryFilesystem.cpp:372-392 | recursive: succeeds exactly where no file is on the way; exactly the missing prefixes are added |
| MemoryFilesystems.MemoryFilesystem.CreateOneDirectory | Libraries/libutil/Sources/MemoryFilesystem.cpp:372-392 | not recursive: exactly the one directory is added |
| MemoryFilesystems.MemoryFilesystem.RemoveDirectory | Libraries/libutil/Sources/MemoryFilesystem.cpp:430-451 | the directory and all below it disappear; removing the root removes nothing and succeeds |
| MemoryFilesystems.MemoryFilesystem.Find | Libraries/libutil/Sources/MemoryFilesystem.cpp:84-147 | the entry that a walk without changes finds |
| MemoryFilesystems.WalkedNode | Libraries/libutil/Sources/MemoryFilesystem.cpp:84-147 | an operation decides what is at its path and below it, and leaves every other path as it was |
| MemoryFilesystems.WalkedSucceeds | Libraries/libutil/Sources/MemoryFilesystem.cpp:84-147 | when a walk succeeds |
| MemoryFilesystems.CreatedNode | Libraries/libutil/Sources/MemoryFilesystem.cpp:372-392 | the tree after making all directories on the way |
| MemoryFilesystems.WalkedKeepsUnique | Libraries/libutil/Sources/MemoryFilesystem.cpp:84-147 | no operation gives two siblings the same name |
| MemoryFilesystems.FreshSucceeds | Libraries/libutil/Sources/MemoryFilesystem.cpp:84-147 | once a directory had to be made, nothing further down can fail |
| Rfc4648.Encode | Libraries/plist/Sources/rfc4648.c:338-377 | the encoding by RFC 4648, of exactly the length that the size function gives |
| Rfc4648.EncodeB64 | Libraries/plist/Sources/rfc4648.c:252-284 | the loop writes the groups of section 4 and 5 |
| Rfc4648.Base64Digits | Libraries/plist/Sources/rfc4648.c:15-18 | the alphabets of base 64 |
| Rfc4648.OtherDigits | Libraries/plist/Sources/rfc4648.c:19-24 | the alphabets of base 32 and base 16 |
| Rfc4648.PaddingOfGroup | Libraries/plist/Sources/rfc4648.c:163-282 | the number of padding characters for each length of a last block |
| Rfc4648.EncodeB32 | Libraries/plist/Sources/rfc4648.c:153-195 | the loop writes the groups of section 6 |
| Rfc4648.EncodeB16 | Libraries/plist/Sources/rfc4648.c:89-105 | the loop writes the groups of section 8 |
| Rfc4648.Decode | Libraries/plist/Sources/rfc4648.c:411-451 | the decoding of a text, strict or recovering; what is written to the buffer, on failure too, is what recovering mode decodes, and never more than the announced size |
| Rfc4648.DecodeB64 | Libraries/plist/Sources/rfc4648.c:306-335 | the loop decodes group by group; when it fails, and all bytes it wrote by then |
| Rfc4648.DecodeB32 | Libraries/plist/Sources/rfc4648.c:211-249 | likewise for groups of eight digits |
| Rfc4648.DecodeB16 | Libraries/plist/Sources/rfc4648.c:121-150 | likewise for groups of two |
| Rfc4648.GetNextNonspace | Libraries/plist/Sources/rfc4648.c:65-86 | the next character that is no space, a zero byte at the end |
| Rfc4648.RoundTrip | Libraries/plist/Sources/rfc4648.c:338-451 | for every byte string, all five encodings, strict or recovering: decoding what was encoded |
| Rfc4648.DigitsAreTheSameBits | Libraries/plist/Sources/rfc4648.c:153-186 | the digits of a block are its bits in order, as one number |
| Numerals.NumberDetermines | Libraries/plist/Sources/rfc4648.c:153-186 | digits are determined by the number they stand for |
| Rfc4648.EncodedLength | Libraries/plist/Sources/rfc4648.c:29-45 | the encoded length is what the size function gives |
| Rfc4648.DecodedFits | Libraries/plist/Sources/rfc4648.c:47-63 | decoding any text, whether it succeeds or fails, writes at most what the size function gives |
| Rfc4648.DecodedIsWritten | Libraries/plist/Sources/rfc4648.c:121-335 | when strict decoding succeeds it gives what recovering mode gives, and that is what was written |
| Rfc4648.DigitsExactly | Libraries/plist/Sources/rfc4648.c:108-304 | which characters are read as digits, both alphabets of base 64 and both cases of base 16 |
| Rfc4648.StrictRefusesExactly | Libraries/plist/Sources/rfc4648.c:121-335 | strict decoding fails exactly on texts that go on behind their whole groups of digits and whose next group, in base 16 any, has a single digit, is cut short, or holds a character that is neither digit nor padding |
| Rfc4648.WhiteSpaceRecovers | Libraries/plist/Sources/rfc4648.c:65-86 | in recovering mode white space anywhere changes nothing |
| Rfc4648.WhiteSpaceStrict | Libraries/plist/Sources/rfc4648.c:65-86 | in strict mode white space changes nothing either, except that it makes decoding fail exactly when it follows whole groups without padding |
| Rfc4648.BytesOfDigits | Libraries/plist/Sources/rfc4648.c:212-241 | the shifts and masks of decoding undo those of encoding |
| ShellQuoting.Shell | Libraries/libutil/Sources/Escape.cpp:13-44 | the word itself if all its characters are plain, otherwise in single quotes with each quote escaped |
| ShellQuoting.PlainCharacters | Libraries/libutil/Sources/Escape.cpp:18-20 | exactly these characters need no quotes |
| ShellQuoting.BuildExec | Libraries/xcexecution/Sources/NinjaExecutor.cpp:889-892 | the quoted words joined by spaces |
| ShellQuoting.ShellReadsWords | Libraries/libutil/Sources/Escape.cpp:13-44 | the shell reads the words of a command line back exactly when none is empty, which it cannot see |
| ShellQuoting.QuotedRuns | Libraries/libutil/Sources/Escape.cpp:13-44 | a quoted word is read as that word and nothing else, whatever is in it |
| NinjaValues.Replace | Libraries/ninja/Sources/Value.cpp:42-53 | every occurrence from the left is replaced, none inside a replacement |
| NinjaValues.Resolve | Libraries/ninja/Sources/Value.cpp:55-98 | the chunks, escaped for the mode: literals as PassesAreOne says, expressions as ExpressionIsKept and ExpressionReadsBack say |
| NinjaValues.PassesAreOne | Libraries/ninja/Sources/Value.cpp:61-77 | for every literal the successive replacements amount to one escape per character |
| NinjaValues.ExpressionIsKept | Libraries/ninja/Sources/Value.cpp:80-83 | in a value an expression is written as it is |
| NinjaValues.ExpressionPassesAreOne | Libraries/ninja/Sources/Value.cpp:84-91 | for every expression the successive replacements amount to one pass |
| NinjaValues.ExpressionReadsBack | Libraries/ninja/Sources/Value.cpp:84-91 | for every expression, in both path modes: Ninja reads its variables as variables, its spaces (and colons) as characters, one dollar sign before one of them as a dollar sign and that character; two dollar signs before one of them end the path there |
| NinjaValues.PathReadsLikeValue | Libraries/ninja/Sources/Value.cpp:84-91 | without a dollar sign before a space or colon to be escaped, and without a bar, an expression in a path is read as the same expression in a value |
| NinjaValues.UnescapedOfDollared | Libraries/ninja/Sources/Value.cpp:61-77 | Ninja reads a literal back exactly when it has no newline |
| NinjaValues.ExecReadsBack | Libraries/xcexecution/Sources/NinjaExecutor.cpp:889-942 | the executable and arguments come back from the binding through Ninja and the shell exactly when none is empty and none has a newline |
| NinjaValues.Build | Libraries/ninja/Sources/Writer.cpp:106-138 | the line of a build statement, in the layout of BuildForm |
| NinjaValues.BuildForm | Libraries/ninja/Sources/Writer.cpp:111-136 | outputs with a space between them, a colon, the rule, the inputs, the dependencies behind one bar and the orders behind two |
| NinjaValues.BuildReadsBack | Libraries/ninja/Sources/Writer.cpp:106-138 | for a plain rule name: outputs, rule, inputs, dependencies and orders are read back from the line exactly when no path is empty or has a newline or a bar |
| NinjaValues.PathReadsBack | Libraries/ninja/Sources/Value.cpp:74-77 | a path stays one path exactly when it is not empty and has no newline and no bar, which is not escaped |
| DerivedDataHashes.ReadBigEndian8 | Libraries/pbxbuild/Sources/DerivedDataHash.cpp:41-49 | the big-endian number of eight bytes |
| DerivedDataHashes.ComputeDerivedDataHash | Libraries/pbxbuild/Sources/DerivedDataHash.cpp:51-86 | 28 letters that write the halves of the MD5 digest of the path in base 26 |
| DerivedDataHashes.WriteHalf | Libraries/pbxbuild/Sources/DerivedDataHash.cpp:69-84 | fourteen letters for one 64-bit number; nothing of it is left over |
| DerivedDataHashes.LastLetters | Libraries/pbxbuild/Sources/DerivedDataHash.cpp:69-83 | the last letter of each half is its remainder by 26, counted from the letter a |
| DerivedDataHashes.HashDeterminesDigest | Libraries/pbxbuild/Sources/DerivedDataHash.cpp:51-86 | the letters determine the digest |
| DerivedDataHashes.DigestDeterminesHash | Libraries/pbxbuild/Sources/DerivedDataHash.cpp:51-86 | the digest determines the letters |
| DerivedDataHashes.LettersSuffice | Libraries/pbxbuild/Sources/DerivedDataHash.cpp:70-84 | 26^14 exceeds 2^64 |

## Left out

- Boms.BomContext.IndexAppend: a free entry, whose address 0 would move the header; nothing is said of an empty block with unused bytes behind it.
- Boms.BomContext.FreeIndicesAdd: entries whose clearing would end behind the buffer, which the original writes past.
- BomTrees.BomTreeContext.Add: no writes behind the end of the buffer; which bytes of a block other than the tree are overwritten when that block follows the leaf is not stated.
- CarWriters.Write: a BOM in which one of the four names is bound already, whose earlier tree would then be added to.
- MemoryFilesystems.MemoryFilesystem.Read: a range that is not inside the file, which has no defined result in the original.
- NinjaValues.BuildReadsBack: the rule must be a plain name, as all names of rules in this code are.
- NinjaExecutors.BuildAction: targets are compared by value, not by identity; the regeneration rule is a parameter.
- Loading a BOM or a tree from existing memory, `bom_index_iterate`, and the assertions on nested iteration: they add no state of their own.
- Inner nodes and chains of leaves in `bom_tree_iterate`: this code never creates any.
- The contents of the asset catalog header, key format, facets and renditions, and `DetermineKeyFormat`: byte strings and attribute sets are parameters of the writer.
- Byte order of the header map: the file is written in the host's order, taken as little-endian.
- `HeaderMap::dump`, `Environment::dump`, `computeValues`: output, and a loop over `resolve`.
- The setting operations (`ProcessOperation`) and the wildcard match of conditions: function parameters of the resolver.
- `Value::FromObject`, `Setting::Parse`, `FullyQualifiedName`: conversions without state.
- `parent`, `base` and `extension` of paths, and other path traits than Unix.
- Traits with a `collapse` flag: `NormalizePathComponents` is only ever called with collapsing on.
- The rounds of MD5 (`md5_process`): a function parameter.
- File permissions, symbolic links, `readDirectory`, `copyDirectory`.
- `rfc4648_can_decode`: strict decoding tried for three encodings in turn. Bitwise shifts and masks are written as division and remainder.
- Rules, bindings and comments of Ninja as statements, and the values of its variables: a variable is read as its name. A carriage return is an ordinary character.
- Assignment words and the other special circumstances of `=` and `%` in the shell's grammar.
- The parts of the executors that launch processes, write files and print; diagnostics everywhere.
