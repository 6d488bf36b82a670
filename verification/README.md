# Verification of the Arm ACS platform layer for Linux

The Linux platform layer of the Arm architecture compliance suites turns firmware tables into flat
information tables and answers questions about them. This project models its most involved parts and
proves what they compute, for all inputs.

**The IOVIRT table** (`Iort`, `Iovirt*`). The builder walks the IO Remapping Table (Arm DEN0049,
section 3), a graph of nodes that refer to each other by offset, and copies it into an arena of
variable-size blocks through a cursor. Entering a node enters the nodes it refers to in the
middle of filling its own block; a linear search drops what is already there. An overlap pass
then flags blocks whose ID ranges collide, and queries read the flags or resolve a requester to its
SMMU. The model has three layers:

- `IovirtTable`, `IovirtPasses` and `IovirtMain` are the code in its own form: a class over an array of
  cells and six counters, recursive methods, nested loops over offsets.
- `IovirtBuild` and `IovirtOverlap` say on values what those methods do; every method is tied to them.
- `IovirtNames` says on nodes alone from which nodes a walk makes its blocks and which block stands in at each
  reference; `IovirtCounts`, `IovirtImage`, `IovirtRun`, `IovirtEntered`, `IovirtDedup`, `IovirtResolve`,
  `IovirtResolution`, `IovirtLinks`, `IovirtFlags`, `IovirtForward`, `IovirtMerged` and `IovirtNodes` prove what the
  builder does over whole runs.

`IovirtLayout` and `IovirtArena` fix how blocks lie in the arena. A graph is given with a rank that
decreases along references, which is what acyclic means; every member requires no more than that
references name nodes of the table, of a known type and not PMCGs, unless it says so.

**The SDEI message log** (`MessageLog`): a doubling buffer with a fall-back wrap, and the reader of the
proc file who zeroes what it took. **The platform timers** (`Timers`, ACPI 6.3 section 5.2.24): table
building, the search from a flat index to a block and a slot, and the choice of the second interrupt.
**The IOVA monitor** (`IovaMonitor`): a ring of recent mappings, an iterator over the domain's interval
tree, and the two-phase check. **The MSI vector list** (`MsiVectors`): a linked list built through a tail
pointer under allocation failure. **Legacy interrupt routing** (`LegacyIrq`): bounded lists filled by pin.
**The GIC table** (`GicTable`, ACPI 6.3 section 5.2.12): four walks over one byte stream of records.

Run `dafny verify dfyconfig.toml`.

## What the proofs found

Where the code does not do what its comments or the specifications say, the model follows the code.

- A PMCG listed before the node it refers to makes the table count blocks it does not hold, and no later
  node is recorded (`IovirtForward.CountAgreesIff`, `IovirtRun.LostAfter`). The same happens if it refers
  to a root complex behind an SMMU.
- References to nodes listed later can leave several equal blocks for a node (`IovirtForward.TwoBlocksForOne`;
  exactly when, `IovirtDedup.OneBlockPerNodeIff`). Resolution does not suffer from that, but the overlap pass
  compares offsets and misses overlaps of mappings that name different blocks of the node
  (`IovirtForward.OverlapMissed`, `IovirtFlags.RunMarks`).
- A root complex that lookups take for an earlier one is dropped, which can change which one answers, or lose
  its requesters if the two differ (`IovirtMerged.RepeatedRcAnswers`, `IovirtMerged.SameKeyLost`; exactly
  when, `IovirtResolution.SameServerIff`). SMMU nodes are taken for one another by base and number of mappings,
  and a requester behind the one that is dropped is answered rightly exactly if both take its identifier,
  or neither does, or their base is 0 (`IovirtMerged.SharedBaseMerged`, `IovirtResolution.ResolutionPreserved`); a clash among the
  dropped one's context interrupts is lost (`IovirtMain.ClashLost`).
- Named components are taken for one another by the first sixteen characters of their names and the number of
  mappings. The mappings of a node that was dropped, of whatever kind, are not in the table, and so are missing
  from the overlap pass (`IovirtMerged.OverlapLostWithName`). Which overlaps of the IORT it sees is
  `IovirtFlags.SeenIff`, and when it sees all of them `IovirtFlags.AllSeenIff`.
- The overlap pass reads entries behind a block's own mappings from its second key mapping on
  (`IovirtOverlap.ExactIff`). Its ranges exclude the last identifier of DEN0049's, those of the resolution
  query include it (`IovirtOverlap.MeetsAgainstSpec`).
- The timer search compares with `>` where `>=` is meant and goes wrong exactly on the first timer of
  every block but the first (`Timers.WrittenIffNotBoundary`); without blocks it takes index 0 for a timer
  (`Timers.WrittenOnNone`).
- Stopping the IOVA monitor lasts only until the next map (`IovaMonitor.StopIsUndone`), and recorded
  lengths are cut to 32 bits (`IovaMonitor.CutHidesLater`).
- After a failed growth the log's reader may see nothing, or the newest message first
  (`MessageLog.AfterFailedGrowth`).

## Model

| member | source | states |
|---|---|---|
| `IovirtTable.Table.AddBlock` | bsa-acs-drv/files/platform/pal_linux/files/src/pal_iovirt.c:216-344 | Entering a node leaves arena, cursor and all six counters exactly as the list specification `Add` says, returns the offset it says, terminates on every acyclic graph through both recursion sites, and writes nothing before the cursor. |
| `IovirtBuild.UnknownType` | bsa-acs-drv/files/platform/pal_linux/files/src/pal_iovirt.c:277-280 | A node of unknown type changes nothing, and the offset returned for it is 0xFFFFFFFF. |
| `IovirtTable.Table.LookUp` | bsa-acs-drv/files/platform/pal_linux/files/src/pal_iovirt.c:282-343 | From the cleared flags on: a match returns its offset and leaves the table alone, otherwise exactly one block is laid down and filled, whatever its targets add behind it. |
| `IovirtTable.Table.AddPmcgNode` | bsa-acs-drv/files/platform/pal_linux/files/src/pal_iovirt.c:267-276 | The PMCG's target is entered right behind the PMCG's own header; the header survives and ends with the target's offset in node_ref. |
| `IovirtTable.Table.FillMaps` | bsa-acs-drv/files/platform/pal_linux/files/src/pal_iovirt.c:299-335 | The mapping loop keeps the block under construction in place while its targets are laid down behind it, entry by entry. |
| `IovirtTable.Table.StoreRef` | bsa-acs-drv/files/platform/pal_linux/files/src/pal_iovirt.c:317-332 | An entry gets the returned offset, and a root complex the base of the SMMU it leads to or 0, so the last mapping decides; every other block keeps its bytes. |
| `IovirtTable.Table.FindBlock` | bsa-acs-drv/files/platform/pal_linux/files/src/pal_iovirt.c:177-197 | Returns the offset of the first of the num_blocks blocks whose compared bytes equal the key's, the key's own copy at the cursor if more are counted than laid down and none before matches, and 0 otherwise. |
| `IovirtArena.CompareDecides` | bsa-acs-drv/files/platform/pal_linux/files/src/pal_iovirt.c:185-193 | The byte comparison holds if and only if type, mapping count and data agree, and for an ITS group the flags and identifiers too. |
| `IovirtTable.Table.SmmuCtxIntDistinct` | bsa-acs-drv/files/platform/pal_linux/files/src/pal_iovirt.c:97-107 | Returns true if and only if the low 32-bit words of the context interrupts are pairwise distinct. |
| `IovirtBuild.CtxDistinctExact` | bsa-acs-drv/files/platform/pal_linux/files/src/pal_iovirt.c:97-107 | That is: no two of them differ by a multiple of 2^32, 0 included. |
| `IovirtTable.Table.CountBlock` | bsa-acs-drv/files/platform/pal_linux/files/src/pal_iovirt.c:340-342 | The general counter and exactly one type's counter go up; both kinds of SMMU share one. |
| `IovirtArena.TiledUpdate` | bsa-acs-drv/files/platform/pal_linux/files/src/pal_iovirt.c:305-317 | Rewriting one block in place leaves the tiling, the end and all other blocks as they were. |
| `IovirtTable.ScratchStays` | bsa-acs-drv/files/platform/pal_linux/files/src/pal_iovirt.c:271-274 | A nested call never changes the tiles before it, nor the header it was made behind. |
| `IovirtCounts.AddSum` | bsa-acs-drv/files/platform/pal_linux/files/src/pal_iovirt.c:235-342 | In every call, including duplicates, invalid nodes and PMCGs whose target is missing, num_blocks grows by as much as the five counters together. |
| `IovirtCounts.AddConserves` | bsa-acs-drv/files/platform/pal_linux/files/src/pal_iovirt.c:296-342 | A call lays down as many blocks as it counts, in total and for each type; the blocks laid down but not counted, one for each call in progress, stay the same. |
| `IovirtRun.RunCounts` | bsa-acs-drv/files/platform/pal_linux/files/src/pal_iovirt.c:360-389 | After the whole walk num_blocks is the number of blocks, the sum of the five counters, and each counter is the number of blocks of its types. |
| `IovirtImage.MatchIsSame` | bsa-acs-drv/files/platform/pal_linux/files/src/pal_iovirt.c:184-193 | A block that the comparison takes for a node was made from a node with the same key, on any IORT in which no root complex reaches one of its own key. |
| `IovirtNames.HeadsCompare` | bsa-acs-drv/files/platform/pal_linux/files/src/pal_iovirt.c:184-193 | Which headers compare equal, in terms of the nodes: those of one type with the same number of mappings that agree, ITS groups in every identifier, named components in the first sixteen characters, root complexes in segment, coherency and ATS, SMMUs in the base, PMCGs in page base and interrupt. |
| `IovirtNames.ShortNames` | bsa-acs-drv/files/platform/pal_linux/files/src/pal_iovirt.c:248 | Names of at most sixteen characters without a zero among them are told apart. |
| `IovirtImage.FoundIffKnown` | bsa-acs-drv/files/platform/pal_linux/files/src/pal_iovirt.c:284-288 | A lookup finds a block exactly if one of the counted blocks was made from a node that looks alike on the IORT, and it finds the first of them. |
| `IovirtImage.AddImage` | bsa-acs-drv/files/platform/pal_linux/files/src/pal_iovirt.c:216-344 | Adding a node adds exactly the blocks that the walk on nodes lists, and keeps the relation between blocks and nodes under which type, every header field, mapping field, node_ref, smmu_base and output_ref is the node's, field by field, a name being the first sixteen characters with zeros behind the end, and references turned into offsets of blocks that stand for the targets, duplicates included; each output_ref is the offset of the very block the walk gives for it, the first finished one that looks like the target or else the target's own. |
| `IovirtRun.RunImage` | bsa-acs-drv/files/platform/pal_linux/files/src/pal_iovirt.c:375-389 | The finished table is such a faithful image, made from exactly the nodes that the walk lists, its entries naming the blocks that the walk gives. |
| `IovirtNodes.NodeRecorded` | bsa-acs-drv/files/platform/pal_linux/files/src/pal_iovirt.c:381-389 | Every node walked has a block that carries its header, or that of a node lookups take for it. |
| `IovirtNodes.NameRecorded` | bsa-acs-drv/files/platform/pal_linux/files/src/pal_iovirt.c:247-250 | Every named component walked has a block with the first sixteen characters of its name, zeros behind the end, and its number of mappings. |
| `IovirtNodes.NamesApart` | bsa-acs-drv/files/platform/pal_linux/files/src/pal_iovirt.c:184-193 | Two named components whose names differ within sixteen characters have two blocks. |
| `IovirtNodes.ShortNamesApart` | bsa-acs-drv/files/platform/pal_linux/files/src/pal_iovirt.c:247-250 | So have any two with different names of at most sixteen characters. |
| `IovirtNodes.CountersByNode` | bsa-acs-drv/files/platform/pal_linux/files/src/pal_iovirt.c:340-342 | The five counters of the finished table are the numbers of nodes of each type that have a block. |
| `IovirtNodes.RcBase` | bsa-acs-drv/files/platform/pal_linux/files/src/pal_iovirt.c:319-327 | A root complex's block carries the base of the SMMU that its last mapping leads to, and 0 if it has none or that leads elsewhere. |
| `IovirtNodes.RecognisableIff` | bsa-acs-drv/files/platform/pal_linux/files/src/pal_iovirt.c:185-193 | So a root complex is found again unless its last mapping leads to an SMMU of a base other than 0. |
| `IovirtNames.ListedRepresents` | bsa-acs-drv/files/platform/pal_linux/files/src/pal_iovirt.c:381-389 | Every node walked has a block that stands for it. |
| `IovirtNames.ListedReached` | bsa-acs-drv/files/platform/pal_linux/files/src/pal_iovirt.c:313-317 | Every block is made from a node reached from one walked. |
| `IovirtNames.ListedStandIns` | bsa-acs-drv/files/platform/pal_linux/files/src/pal_iovirt.c:313-317 | After a run every mapping of every block names one block, made from a node that stands for the mapping's target. |
| `IovirtLinks.RunLinks` | bsa-acs-drv/files/platform/pal_linux/files/src/pal_iovirt.c:313-317 | Without any assumption on equal keys: every block of the finished table is complete and every output_ref is the offset of a block. |
| `IovirtForward.FindExact` | bsa-acs-drv/files/platform/pal_linux/files/src/pal_iovirt.c:183-195 | The lookup sees exactly the first num_blocks blocks: with d ancestors in progress the last d are invisible. |
| `IovirtForward.NewBlockIff` | bsa-acs-drv/files/platform/pal_linux/files/src/pal_iovirt.c:271-288 | A node gets a block of its own exactly if every block that matches it is among the invisible ones, and, for a PMCG, its target is in the table. |
| `IovirtForward.TwoBlocksForOne` | bsa-acs-drv/files/platform/pal_linux/files/src/pal_iovirt.c:313-341 | Whenever a root complex refers twice to a node listed after it that has no mappings, the walk leaves two equal blocks for that node, and the two entries name one each. |
| `IovirtForward.ForwardDuplicates` | bsa-acs-drv/files/platform/pal_linux/files/src/pal_iovirt.c:313-341 | An IORT that shows it for an ITS group. |
| `IovirtDedup.OneBlockPerNodeIff` | bsa-acs-drv/files/platform/pal_linux/files/src/pal_iovirt.c:177-197 | The finished table has no two blocks for the same node if and only if, by a recursion over the nodes alone, no lookup of the walk misses a block that is there. |
| `IovirtForward.OnceForwardSingle` | bsa-acs-drv/files/platform/pal_linux/files/src/pal_iovirt.c:313-341 | A single reference to a node listed later leaves one block per node. |
| `IovirtDedup.DedupRun` | bsa-acs-drv/files/platform/pal_linux/files/src/pal_iovirt.c:177-197 | In particular, if every reference points back to an earlier node that lookups recognise, the table holds exactly one faithful block per distinct node, in the order of first occurrence. |
| `IovirtDedup.FirstsExact` | bsa-acs-drv/files/platform/pal_linux/files/src/pal_iovirt.c:284-288 | That list of nodes leaves out none that was walked and adds none. |
| `IovirtDedup.FirstsDistinct` | bsa-acs-drv/files/platform/pal_linux/files/src/pal_iovirt.c:284-288 | And it names no node's contents twice. |
| `IovirtEntered.PresentIsFound` | bsa-acs-drv/files/platform/pal_linux/files/src/pal_iovirt.c:185-193 | A node with a block is found again unless it is a root complex behind an SMMU, whose stored smmu_base is part of the compared bytes. |
| `IovirtRun.TiledIffReady` | bsa-acs-drv/files/platform/pal_linux/files/src/pal_iovirt.c:267-297 | num_blocks agrees with the blocks laid down if and only if the lookup finds every PMCG's target when the PMCG is entered; it is never too small. |
| `IovirtEntered.CountAgreesIffKnown` | bsa-acs-drv/files/platform/pal_linux/files/src/pal_iovirt.c:267-297 | Read off the IORT: it agrees if and only if at every PMCG the walk on nodes has a finished block that looks like its target. |
| `IovirtForward.CountAgreesIff` | bsa-acs-drv/files/platform/pal_linux/files/src/pal_iovirt.c:267-297 | Where no node looks like a different one: if and only if every PMCG comes after its target was reached, and that target is not a root complex behind an SMMU. |
| `IovirtEntered.KnownIffEntered` | bsa-acs-drv/files/platform/pal_linux/files/src/pal_iovirt.c:284-288 | There lookups know a node exactly if it was reached before and is not a root complex behind an SMMU. |
| `IovirtRun.LostAfter` | bsa-acs-drv/files/platform/pal_linux/files/src/pal_iovirt.c:267-288 | From the first PMCG that comes too early on, no node is recorded any more while the count stays too high. |
| `IovirtForward.PmcgFirstRecordsNothing` | bsa-acs-drv/files/platform/pal_linux/files/src/pal_iovirt.c:267-288 | A PMCG listed before the SMMU it monitors, as first node, leaves a table without blocks and a nonzero count. |
| `IovirtEntered.ReadyIffEntered` | bsa-acs-drv/files/platform/pal_linux/files/src/pal_iovirt.c:271-274 | The target of a PMCG is found exactly if a node saying the same is reached from one walked before, and it is recognisable. |
| `IovirtEntered.PresentCloses` | bsa-acs-drv/files/platform/pal_linux/files/src/pal_iovirt.c:313-317 | Where no node looks like a different one, whatever can be reached by references from a node with a block has a block. |
| `IovirtEntered.AddMadeBelow` | bsa-acs-drv/files/platform/pal_linux/files/src/pal_iovirt.c:216-344 | Every block that a call adds is made from a node reached from the one added. |
| `IovirtMain.EnterNodes` | bsa-acs-drv/files/platform/pal_linux/files/src/pal_iovirt.c:357-389 | The top-level walk on any IORT: the nodes entered lie one behind the other from the node offset on, each inside the table, and the next one past its end stops the walk. On a table that consists of such nodes it enters exactly those. |
| `IovirtMain.LaidOutWalk` | bsa-acs-drv/files/platform/pal_linux/files/src/pal_iovirt.c:381-388 | For every list of nodes with positive lengths, the first at the node offset and each next one where the last one ends, the walk visits exactly this list, and its offsets rise, so that each is visited once. |
| `IovirtMain.CreateWholeTable` | bsa-acs-drv/files/platform/pal_linux/files/src/pal_iovirt.c:349-392 | After building the table of such an IORT every node of it has a block that stands for it. |
| `IovirtMain.CreateInfoTable` | bsa-acs-drv/files/platform/pal_linux/files/src/pal_iovirt.c:349-392 | The walk, and then, if it was complete, the overlap pass, which leaves the finished table: every entry of it still leads to a block, as the queries need. |
| `IovirtMain.LinkableFlagged` | bsa-acs-drv/files/platform/pal_linux/files/src/pal_iovirt.c:109-168 | The overlap pass keeps every entry leading to the offset of a block. |
| `IovirtMain.EnterNode` | bsa-acs-drv/files/platform/pal_linux/files/src/pal_iovirt.c:387-388 | One top-level step leaves the cursor at the end of the blocks built so far. |
| `IovirtPasses.CheckMappingOverlap` | bsa-acs-drv/files/platform/pal_linux/files/src/pal_iovirt.c:109-168 | The nested pointer loops turn the table into the flagged table of the specification and change nothing else, for every answer that the reads behind a block's own entries may give. |
| `IovirtPasses.CompareBlock` | bsa-acs-drv/files/platform/pal_linux/files/src/pal_iovirt.c:136-164 | The walk of one block compares exactly the entries that the specification lists, those read behind the block included. |
| `IovirtPasses.PartialStep` | bsa-acs-drv/files/platform/pal_linux/files/src/pal_iovirt.c:145-163 | A comparison marks both blocks with the flag that the target's type calls for, or nothing. |
| `IovirtOverlap.MeetsIsIntersection` | bsa-acs-drv/files/platform/pal_linux/files/src/pal_iovirt.c:147-151 | For ranges of at least one identifier within 32 bits the three-way test is intersection, and symmetric. |
| `IovirtOverlap.MeetsAgainstSpec` | bsa-acs-drv/files/platform/pal_linux/files/src/pal_iovirt.c:129-151 | Against DEN0049's ranges, whose count excludes the first identifier, and for all of them, single identifiers included: exactly which common identifiers the test misses and which it makes up. |
| `IovirtOverlap.MeetsAsymmetric` | bsa-acs-drv/files/platform/pal_linux/files/src/pal_iovirt.c:147-151 | It depends on which mapping is the key exactly for a single identifier, not 0, at an end of a longer range. |
| `IovirtOverlap.SingleIdsMissed` | bsa-acs-drv/files/platform/pal_linux/files/src/pal_iovirt.c:129-151 | Two single-identifier mappings are never reported, even if they coincide. |
| `IovirtOverlap.ComparedOnce` | bsa-acs-drv/files/platform/pal_linux/files/src/pal_iovirt.c:118-143 | Each unordered pair of different mappings is compared exactly once, the earlier one as key. |
| `IovirtOverlap.MarkedExactly` | bsa-acs-drv/files/platform/pal_linux/files/src/pal_iovirt.c:118-166 | A block ends with a flag if and only if one of its entries and another entry lead to the same offset with ranges that pass the test, or a comparison behind its own entries hits. |
| `IovirtFlags.OverlapOnImage` | bsa-acs-drv/files/platform/pal_linux/files/src/pal_iovirt.c:145-163 | On a faithful table the pass sees two entries overlap exactly if they name one block, of the kind the flag is for, and their mappings on the IORT pass the test. |
| `IovirtForward.OverlapMissed` | bsa-acs-drv/files/platform/pal_linux/files/src/pal_iovirt.c:145-163 | An IORT on which it misses one: two mappings of a root complex overlap on an SMMU listed later. |
| `IovirtFlags.FlagExact` | bsa-acs-drv/files/platform/pal_linux/files/src/pal_iovirt.c:118-166 | So a block has a true overlap if and only if one of its mappings and a different one name one block and share an identifier. |
| `IovirtFlags.RunMarks` | bsa-acs-drv/files/platform/pal_linux/files/src/pal_iovirt.c:118-166 | On every run, forward references, repetitions and lookalikes included, the pass marks a block exactly for such a pair or a stray hit. |
| `IovirtFlags.JoinedSameKey` | bsa-acs-drv/files/platform/pal_linux/files/src/pal_iovirt.c:145-163 | Mappings that name one block lead to nodes of equal keys. |
| `IovirtFlags.SeenIff` | bsa-acs-drv/files/platform/pal_linux/files/src/pal_iovirt.c:118-166 | For two nodes of the IORT with a mapping each that lead to nodes saying the same and share an identifier: the pass sees them overlap if and only if both nodes have a block of their own contents and the two entries name one block. Nodes that say the same count as one, so listing a node again adds no pair. |
| `IovirtFlags.SeenIffPresent` | bsa-acs-drv/files/platform/pal_linux/files/src/pal_iovirt.c:118-166 | With one block per node: if and only if both nodes have a block of their own contents. |
| `IovirtFlags.AllSeenIff` | bsa-acs-drv/files/platform/pal_linux/files/src/pal_iovirt.c:118-166 | On a run that leaves one block per node every such pair of nodes entered is seen if and only if no node in such a pair is missing from the table. |
| `IovirtFlags.MissingIsDropped` | bsa-acs-drv/files/platform/pal_linux/files/src/pal_iovirt.c:284-288 | A node walked that is missing was dropped for a lookalike that says something different. |
| `IovirtFlags.FlagsOfWalk` | bsa-acs-drv/files/platform/pal_linux/files/src/pal_iovirt.c:118-166 | There a block has a true overlap exactly if its node collides with one that was not dropped, which tells whether it collides with any node entered exactly if it does not collide with dropped ones only. |
| `IovirtFlags.WalkMarks` | bsa-acs-drv/files/platform/pal_linux/files/src/pal_iovirt.c:118-166 | On such a run the pass marks a block, stray hits apart, exactly if its node collides with one that was not dropped; if no node that collides is missing, exactly if its node collides with any node entered. |
| `IovirtMerged.OverlapLostWithName` | bsa-acs-drv/files/platform/pal_linux/files/src/pal_iovirt.c:284-288 | For all names that share sixteen characters: the second of two such named components is dropped, and the overlap of its mapping with the first one's is not in the table, which otherwise meets every condition. |
| `IovirtOverlap.ExactIff` | bsa-acs-drv/files/platform/pal_linux/files/src/pal_iovirt.c:136-143 | The flags are exact for every answer of the reads behind a block if and only if all its mappings but the first lead to kinds of targets it overlaps on anyway; those answers are free only where nothing of the table follows. |
| `IovirtOverlap.StrayPossible` | bsa-acs-drv/files/platform/pal_linux/files/src/pal_iovirt.c:136-143 | From two mappings on some answer of those reads makes the pass flag the block. |
| `IovirtMain.StridVerdict` | bsa-acs-drv/files/platform/pal_linux/files/src/pal_iovirt.c:420-427 | The flags in the finished table, read as overlaps of its entries and stray hits. |
| `IovirtMain.UniqueRidStridMap` | bsa-acs-drv/files/platform/pal_linux/files/src/pal_iovirt.c:420-427 | Returns 1 if and only if the block has no stream ID overlap flag, otherwise 0. |
| `IovirtMain.CtxVerdict` | bsa-acs-drv/files/platform/pal_linux/files/src/pal_iovirt.c:290-294 | For the block of an SMMUv1/v2 the flag, after the build and the overlap pass, is clear if and only if the low words of the node's context interrupts are pairwise distinct. |
| `IovirtMain.SmmuVerdict` | bsa-acs-drv/files/platform/pal_linux/files/src/pal_iovirt.c:284-294 | Every SMMUv1/v2 walked has the verdict of its stand-in, so that its verdict is right if and only if both or neither have distinct context interrupts. |
| `IovirtMain.ClashLost` | bsa-acs-drv/files/platform/pal_linux/files/src/pal_iovirt.c:284-294 | Two SMMUs of the same base, for all lists of context interrupts: if only the second one has a clash, the table says there is none. |
| `IovirtMain.CheckUniqueCtxIntid` | bsa-acs-drv/files/platform/pal_linux/files/src/pal_iovirt.c:402-410 | Returns 1 if and only if that flag is clear. |
| `IovirtMain.GetRcSmmuBase` | bsa-acs-drv/files/platform/pal_linux/files/src/pal_iovirt.c:429-489 | The two-level search returns the table's answer: last root complex block that serves the requester, its first mapping that does, then the SMMU's input ranges; 0xFFFFFFFF and 0 as the code returns them. |
| `IovirtMain.FindMapping` | bsa-acs-drv/files/platform/pal_linux/files/src/pal_iovirt.c:448-458 | Returns the first mapping that takes the identifier, or the mapping count if none does. |
| `IovirtResolve.InRangeExact` | bsa-acs-drv/files/platform/pal_linux/files/src/pal_iovirt.c:450-451 | The 32-bit test is membership in the range with both ends, except that a range running past 2^32 contains nothing. |
| `IovirtResolve.TranslateExact` | bsa-acs-drv/files/platform/pal_linux/files/src/pal_iovirt.c:453 | In plain integers: the output identifier is outputBase + (rid - inputBase), less 2^32 if that is not below it. |
| `IovirtResolve.SecondLevel` | bsa-acs-drv/files/platform/pal_linux/files/src/pal_iovirt.c:466-487 | Behind a mapping that takes the requester the answer is the SMMU's base if one of its ranges holds outputBase + (rid - inputBase), less 2^32 where that is past it, and 0 if none does or there is no SMMU. |
| `IovirtResolve.NotFoundPlain` | bsa-acs-drv/files/platform/pal_linux/files/src/pal_iovirt.c:460-464 | The query answers 0xFFFFFFFF if no root complex block of the segment has a range with the requester in it. |
| `IovirtResolve.FoundPlain` | bsa-acs-drv/files/platform/pal_linux/files/src/pal_iovirt.c:438-488 | Otherwise it answers by the last such block, its first such entry, and the ranges of the block that the entry leads to, all in plain integers. |
| `IovirtResolve.ResolvesUnique` | bsa-acs-drv/files/platform/pal_linux/files/src/pal_iovirt.c:429-489 | Resolution on the graph has at most one answer. |
| `IovirtResolution.ResolvesIffAnswer` | bsa-acs-drv/files/platform/pal_linux/files/src/pal_iovirt.c:429-489 | And exactly one: the fold `Answer` over the nodes is its value. |
| `IovirtResolution.IortNotFound` | bsa-acs-drv/files/platform/pal_linux/files/src/pal_iovirt.c:460-464 | The IORT's answer is 0xFFFFFFFF if no root complex of the segment has a range with the requester in it. |
| `IovirtResolution.IortFound` | bsa-acs-drv/files/platform/pal_linux/files/src/pal_iovirt.c:429-489 | Otherwise it is that of the last such root complex and its first such mapping: the base of the SMMU behind it if one of its ranges holds outputBase + (rid - inputBase), and else 0. |
| `IovirtResolve.StandInAnswers` | bsa-acs-drv/files/platform/pal_linux/files/src/pal_iovirt.c:469-487 | A node of the target's key answers as the target does if and only if the target is no SMMU, has base 0, or takes the translated identifier exactly if the stand-in does. |
| `IovirtResolve.EntryAnswersIff` | bsa-acs-drv/files/platform/pal_linux/files/src/pal_iovirt.c:469-487 | So a block that an entry leads to gives the answer of the mapping's target under exactly that condition. |
| `IovirtResolution.ResolutionOnImage` | bsa-acs-drv/files/platform/pal_linux/files/src/pal_iovirt.c:438-488 | On a faithful table the query has exactly one answer: the last root complex block that serves, its first mapping that does, and then the base and input ranges of the node that stands in for the mapping's target. |
| `IovirtResolution.NamedAgrees` | bsa-acs-drv/files/platform/pal_linux/files/src/pal_iovirt.c:438-488 | That answer is resolution on the nodes behind the blocks if and only if the stand-in at the mapping that answers agrees with its target. |
| `IovirtResolution.RcRun` | bsa-acs-drv/files/platform/pal_linux/files/src/pal_iovirt.c:375-389 | The root complex blocks come in IORT order; left out are exactly those with a lookalike before them. |
| `IovirtResolution.ResolutionPreserved` | bsa-acs-drv/files/platform/pal_linux/files/src/pal_iovirt.c:216-489 | For every segment and requester the answer on the finished table is the value of direct resolution on the recorded root complexes if and only if the SMMU standing in at the mapping that answers agrees with its target about this requester; forward references, duplicates and lookalikes elsewhere do not matter. |
| `IovirtResolution.WalkAnswers` | bsa-acs-drv/files/platform/pal_linux/files/src/pal_iovirt.c:216-489 | The finished table has exactly one answer for every segment and requester, the one read off the walk on nodes. |
| `IovirtResolution.DeterminedWalk` | bsa-acs-drv/files/platform/pal_linux/files/src/pal_iovirt.c:284-288 | In particular they agree for every requester where no target of a mapping looks like a different node. |
| `IovirtResolution.SameServerIff` | bsa-acs-drv/files/platform/pal_linux/files/src/pal_iovirt.c:284-288 | For every requester the root complex that answers is the one that answers on the IORT if and only if that one is recorded somewhere and no different one that serves the requester is recorded after it. |
| `IovirtResolution.RecordedAnswers` | bsa-acs-drv/files/platform/pal_linux/files/src/pal_iovirt.c:284-288 | In particular, where no node looks like a different one, if no root complex is repeated, or all that serve the requester are the same. |
| `IovirtResolution.NoLookalikesKept` | bsa-acs-drv/files/platform/pal_linux/files/src/pal_iovirt.c:284-288 | Without lookalikes among the root complexes that is always so. |
| `IovirtMerged.RepeatedRcAnswers` | bsa-acs-drv/files/platform/pal_linux/files/src/pal_iovirt.c:284-288 | A root complex listed on both sides of another that serves the same requester: the table built by the walk over the whole IORT answers with the other one's SMMU, the IORT in order with none. |
| `IovirtMerged.SameKeyLost` | bsa-acs-drv/files/platform/pal_linux/files/src/pal_iovirt.c:284-288 | Two root complexes of one segment with one mapping each, straight to an ITS group: the second is taken for the first, and its requesters are not found. |
| `IovirtMerged.SharedBaseMerged` | bsa-acs-drv/files/platform/pal_linux/files/src/pal_iovirt.c:284-288 | Two SMMU nodes that give the same base and have one mapping each: the second is taken for the first. For every requester the table's answer and the IORT's: right behind the first SMMU, where the stand-in agrees, and 0 behind the second, where it does not. |
| `IovirtMerged.AnswerOnTable` | bsa-acs-drv/files/platform/pal_linux/files/src/pal_iovirt.c:429-489 | The query has an answer on every finished table, and the one on the recorded root complexes is it if and only if the stand-in agrees. |
| `IovirtMain.AnswersIgnoreFlags` | bsa-acs-drv/files/platform/pal_linux/files/src/pal_iovirt.c:109-168 | The overlap pass changes no answer. |
| `IovirtMain.RecordedEndToEnd` | bsa-acs-drv/files/platform/pal_linux/files/src/pal_iovirt.c:349-489 | From the IORT through building and overlap pass to the query: the answer is direct resolution on the recorded root complexes if and only if the stand-in agrees. |
| `IovirtMain.EndToEnd` | bsa-acs-drv/files/platform/pal_linux/files/src/pal_iovirt.c:349-489 | And, whenever the answering root complex is kept, direct resolution on the whole IORT under the same condition. |
| `IovirtMain.FinishedAnswers` | bsa-acs-drv/files/platform/pal_linux/files/src/pal_iovirt.c:349-489 | After the overlap pass too the only answer is the one read off the walk. |
| `IovirtMain.BuildAndResolve` | bsa-acs-drv/files/platform/pal_linux/files/src/pal_iovirt.c:349-489 | Building and then asking, the two operations one after the other: the value returned is that answer, with both conditions under which it is the IORT's, also after a walk that was stopped; the nodes are those of the table if it consists of nodes one behind the other. |
| `MessageLog.MessageBuffer.Print` | sdei-acs-drv/sdei-acs-pal/files/src/pal_misc.c:92-116 | Growth, copy, fall-back wrap and append are one step of the log; messages above the print level change nothing. |
| `MessageLog.MessageBuffer.ReadRecord` | sdei-acs-drv/sdei-acs-drv/files/sdei_acs_drv.c:230-246 | One read delivers the record at the file offset, zeroes it and moves on, or delivers nothing. |
| `MessageLog.MessageBuffer.constructor` | sdei-acs-drv/sdei-acs-drv/files/sdei_acs_drv.c:116-120 | The log starts empty with room for 20 records. |
| `MessageLog.Delivery` | sdei-acs-drv/sdei-acs-drv/files/sdei_acs_drv.c:230-246 | Over every interleaving of appends and reads without a failed growth: the delivered records are the first appended ones in order, consumed slots are zero, unread ones intact across every growth. |
| `MessageLog.ReadDeliversIff` | sdei-acs-drv/sdei-acs-drv/files/sdei_acs_drv.c:236-241 | Over every run without a failed growth a read delivers exactly if fewer records were delivered than appended. |
| `MessageLog.ReadsDrain` | sdei-acs-drv/sdei-acs-drv/files/sdei_acs_drv.c:230-246 | After any such run each further read delivers one more record, in order, until all are delivered. |
| `MessageLog.AppendsThenReads` | sdei-acs-drv/sdei-acs-drv/files/sdei_acs_drv.c:230-246 | From a fresh log m appends and then n reads deliver the first min(m, n) messages. |
| `MessageLog.GrowthCost` | sdei-acs-drv/sdei-acs-pal/files/src/pal_misc.c:99-108 | Over every run the capacity is 20 doubled once per successful growth, and all records ever copied add up to the capacity minus 20. |
| `MessageLog.CapacityIsLeast` | sdei-acs-drv/sdei-acs-pal/files/src/pal_misc.c:97-108 | Without a failed growth the buffer is the smallest that holds all messages: it is 20, or more than half taken. |
| `MessageLog.TailHoldsSince` | sdei-acs-drv/sdei-acs-pal/files/src/pal_misc.c:99-114 | Whatever allocations fail: the slots below the tail are the messages since the last failure, delivered ones zeroed, and every write index is below the capacity. |
| `MessageLog.AfterFailedGrowth` | sdei-acs-drv/sdei-acs-pal/files/src/pal_misc.c:106-107 | What a failed growth does to the reader, for every number of records it has taken. |
| `Timers.TimerTable.CreateInfoTable` | sdei-acs-drv/sdei-acs-pal/files/src/pal_wd_timer.c:89-119 | The nested loops record exactly the GT blocks among the structures, all their timers in order with packed flags, their total, and touch no slot behind them. |
| `Timers.FlatIsTimers` | sdei-acs-drv/sdei-acs-pal/files/src/pal_wd_timer.c:89-112 | Slot i in flat order has the address, EL0 address, physical and virtual interrupt and flag words of the i-th timer of all GT blocks of the GTDT, and there are as many. |
| `Timers.BlockIsGtBlock` | sdei-acs-drv/sdei-acs-pal/files/src/pal_wd_timer.c:91-95 | Block b has the control base and the number of timers of the b-th GT block. |
| `Timers.TimerTable.SlotFromGtdt` | sdei-acs-drv/sdei-acs-pal/files/src/pal_wd_timer.c:101-107 | In memory, the slot that the search as meant gives for number i is a copy of timer i of the GTDT. |
| `Timers.TimerTable.RecordBlock` | sdei-acs-drv/sdei-acs-pal/files/src/pal_wd_timer.c:91-111 | One block's timers fill its first slots and are counted. |
| `Timers.TimerTable.GetEntryIndex` | sdei-acs-drv/sdei-acs-pal/files/src/pal_wd_timer.c:122-136 | The search loop as written computes the specification of the `>` form. |
| `Timers.MeantIsBijection` | sdei-acs-drv/sdei-acs-pal/files/src/pal_wd_timer.c:122-136 | With `>=` the search sends every index below the total to a valid block and slot, the timer recorded at that place in the flattening order, and rejects all others. |
| `Timers.MeantInverse` | sdei-acs-drv/sdei-acs-pal/files/src/pal_wd_timer.c:122-136 | And every valid block and slot is reached by the index that counts the timers before it. |
| `Timers.WrittenSplits` | sdei-acs-drv/sdei-acs-pal/files/src/pal_wd_timer.c:125-135 | As written the search ends for every index up to the total, the index is still the earlier counts plus the slot, and the place is out of the block exactly if the slot equals its count. |
| `Timers.WrittenOnNone` | sdei-acs-drv/sdei-acs-pal/files/src/pal_wd_timer.c:122-135 | On a table without timer blocks index 0 is accepted as block 0, slot 0, where the `>=` form rejects it. |
| `Timers.WrittenIffNotBoundary` | sdei-acs-drv/sdei-acs-pal/files/src/pal_wd_timer.c:125-135 | As written it agrees with the `>=` form exactly if the index is not the first of a block after the first. |
| `Timers.TimerTable.GetInfo` | sdei-acs-drv/sdei-acs-pal/files/src/pal_wd_timer.c:138-166 | A query reports the field of the slot that the search finds, or 0xFFFFFFFF. |
| `Timers.QueryFromGtdt` | sdei-acs-drv/sdei-acs-pal/files/src/pal_wd_timer.c:138-166 | Except at the first timers of later blocks a query reports interrupt, address or security of that timer of the GTDT, and 0xFFFFFFFF beyond their number. |
| `Timers.TimerTable.ConfigureSecondInterrupt` | sdei-acs-drv/sdei-acs-pal/files/src/pal_wd_timer.c:168-197 | The downward loop computes the specified scan with the search as written; it fails without timers. |
| `Timers.ScanMeantPicksLast` | sdei-acs-drv/sdei-acs-pal/files/src/pal_wd_timer.c:168-197 | With the `>=` search the scan picks the greatest index of a non-secure timer with that timer's interrupt, and none if and only if all are secure. |
| `Timers.ChoiceFromGtdt` | sdei-acs-drv/sdei-acs-pal/files/src/pal_wd_timer.c:168-197 | From the GTDT: as meant the scan gives the greatest number of a timer that is not secure and that timer's own interrupt, and none if and only if all are secure. |
| `Timers.ScanWrittenPicksLast` | sdei-acs-drv/sdei-acs-pal/files/src/pal_wd_timer.c:168-197 | As written it picks the greatest index whose slot, as the search finds it, is not marked secure. |
| `Timers.ScansAgreeIff` | sdei-acs-drv/sdei-acs-pal/files/src/pal_wd_timer.c:168-197 | On a zeroed table the two choices agree if and only if no block starts after the timer meant, nor at it unless its interrupt is 0. |
| `Timers.SecureTimerPicked` | sdei-acs-drv/sdei-acs-pal/files/src/pal_wd_timer.c:178-190 | Two blocks of one timer, the second secure: as written the scan picks the secure one, with interrupt 0. |
| `Timers.SecureBit` | sdei-acs-drv/sdei-acs-pal/files/src/pal_wd_timer.c:105-107 | The secure bit read from the packed word is bit 0 of the common flags, unless higher bits of the other flag words spill into it. |
| `IovaMonitor.SessionRecords` | kernel/src/0001-BSA-ACS-Linux-6.0.patch:220-263 | From a start to the next start or stop exactly the mappings of that domain are recorded, in order. |
| `IovaMonitor.StopIsUndone` | kernel/src/0001-BSA-ACS-Linux-6.0.patch:229-248 | A stop lasts only until the next map: the SATA lookup sets the domain again, and that map is recorded if it is in it. |
| `IovaMonitor.DomainAfter` | bsa-acs-drv/files/platform/pal_linux/files/src/pal_smmu.c:41-62 | A start of a device with a domain monitors it and a stop ends that; a device without a domain changes nothing. |
| `IovaMonitor.Monitor.Map` | kernel/src/0001-BSA-ACS-Linux-6.0.patch:236-263 | The hook in the map operation is one step of the monitor's history and keeps the ring. |
| `IovaMonitor.Monitor.SaveAddr` | kernel/src/0001-BSA-ACS-Linux-6.0.patch:250-263 | The slot at the index gets the record and the index moves on modulo four. |
| `IovaMonitor.KeepsNext` | kernel/src/0001-BSA-ACS-Linux-6.0.patch:250-263 | The ring holds the last min(n, 4) recorded mappings, mapping i in slot i mod 4, and keeps doing so. |
| `IovaMonitor.KeepsOnly` | kernel/src/0001-BSA-ACS-Linux-6.0.patch:250-263 | Every used slot holds one of those. |
| `IovaMonitor.CutExact` | kernel/src/0001-BSA-ACS-Linux-6.0.patch:361 | What is kept of a mapping is its first address and its length modulo 2^32. |
| `IovaMonitor.InRangeExact` | bsa-acs-drv/files/platform/pal_linux/files/src/pal_smmu.c:91 | The 64-bit test is interval membership, except that a range reaching 2^64 contains nothing. |
| `IovaMonitor.InRingExact` | bsa-acs-drv/files/platform/pal_linux/files/src/pal_smmu.c:88-98 | The first phase looks at a slot exactly if no slot up to it has length zero. |
| `IovaMonitor.CutHidesLater` | kernel/src/0001-BSA-ACS-Linux-6.0.patch:361 | A mapping whose size is a multiple of 4 GiB hides itself and every later slot from the first phase. |
| `IovaMonitor.RingSound` | bsa-acs-drv/files/platform/pal_linux/files/src/pal_smmu.c:88-98 | Whatever was recorded, the first phase never succeeds for an address outside the last min(n, 4) mappings. |
| `IovaMonitor.SlotFaithfulIff` | kernel/src/0001-BSA-ACS-Linux-6.0.patch:361 | A slot gives the mapping's range for every address if and only if the mapping is empty, or shorter than 4 GiB and ending below 2^64. |
| `IovaMonitor.Monitor.GetIova` | kernel/src/0001-BSA-ACS-Linux-6.0.patch:144-179 | One iterator call returns the last node below the given one that translates to something. |
| `IovaMonitor.VisitsExact` | kernel/src/0001-BSA-ACS-Linux-6.0.patch:160-178 | Repeated calls visit every such node exactly once, from the highest down. |
| `IovaMonitor.InTreeExact` | bsa-acs-drv/files/platform/pal_linux/files/src/pal_smmu.c:101-109 | The second phase succeeds if and only if some active node's range contains the address. |
| `IovaMonitor.Monitor.CheckDeviceIova` | bsa-acs-drv/files/platform/pal_linux/files/src/pal_smmu.c:72-112 | The two loops compute the specified check: skip without a domain, success by either phase, else error. |
| `IovaMonitor.CheckExact` | bsa-acs-drv/files/platform/pal_linux/files/src/pal_smmu.c:72-112 | After any history with representable mappings the check succeeds if and only if the address lies in one of the last min(n, 4) recorded mappings or in an interval still mapped. |
| `IovaMonitor.SkipIff` | bsa-acs-drv/files/platform/pal_linux/files/src/pal_smmu.c:81-84 | The check is skipped for a device without a domain and for no other. |
| `IovaMonitor.CheckSound` | bsa-acs-drv/files/platform/pal_linux/files/src/pal_smmu.c:72-112 | After any history at all a success is right, and an address in an interval still mapped is found. |
| `MsiVectors.GetMsiVectors` | bsa-acs-drv/files/platform/pal_linux/files/src/pal_pcie.c:118-165 | The list behind the caller's variable is null-terminated and holds the vectors of the longest prefix whose nodes could be allocated, in order; the count is its length, and with none the variable is left as it was. |
| `MsiVectors.Extend` | bsa-acs-drv/files/platform/pal_linux/files/src/pal_pcie.c:140-154 | A new node goes behind the last one, or becomes the first, and the list stays linked. |
| `MsiVectors.Acyclic` | bsa-acs-drv/files/platform/pal_linux/files/src/pal_pcie.c:150-153 | No node occurs twice in the list. |
| `MsiVectors.ReadingUnique` | bsa-acs-drv/files/platform/pal_linux/files/src/pal_pcie.c:150-153 | What is read by following the links is determined by the first node. |
| `LegacyIrq.IrqMap.GetLegacyIrqMap` | bsa-acs-drv/files/platform/pal_linux/files/src/pal_pcie.c:235-300 | Each pin's list ends as it was plus, in order, the source indexes filed under it up to the first entry that cannot be filed; the status is 1, 2 or 3 without a table and else that of the stopping entry. |
| `LegacyIrq.IrqMap.FileEntry` | bsa-acs-drv/files/platform/pal_linux/files/src/pal_pcie.c:273-293 | One entry: the first failing test as status and nothing filed, or 0 and its source index behind its pin's list. |
| `LegacyIrq.TakenIff` | bsa-acs-drv/files/platform/pal_linux/files/src/pal_pcie.c:264-299 | The status is 0 if and only if every entry is well formed and every pin's list has room for all of its own. |
| `LegacyIrq.Bounded` | bsa-acs-drv/files/platform/pal_linux/files/src/pal_pcie.c:285-289 | No list grows beyond the maximum. |
| `LegacyIrq.NothingLost` | bsa-acs-drv/files/platform/pal_linux/files/src/pal_pcie.c:290-293 | Every entry taken is in exactly one pin's list. |
| `LegacyIrq.FiledValues` | bsa-acs-drv/files/platform/pal_linux/files/src/pal_pcie.c:285-293 | A pin's list holds exactly the source indexes of the pin's entries, each behind those of the entries for that pin before it. |
| `LegacyIrq.StatusExact` | bsa-acs-drv/files/platform/pal_linux/files/src/pal_pcie.c:264-299 | All entries before the stopping one have no source name, one of the four pins and room; the status is 0 if that one ends the table, 4 for a source name, else 5 for a pin that is none of the four, else 6 for a full list. |
| `LegacyIrq.Stop` | bsa-acs-drv/files/platform/pal_linux/files/src/pal_pcie.c:266-296 | The entries before the stopping one pass every test, and it ends the table or fails one. |
| `GicTable.Table.CreateInfoTable` | sdei-acs-drv/sdei-acs-pal/files/src/pal_gic.c:42-134 | The four walks leave the stable concatenation of CPU interfaces, distributors, redistributors and translators with a base address, the end mark right behind, the three counts and the last distributor's version. |
| `GicTable.Table.Walk` | sdei-acs-drv/sdei-acs-pal/files/src/pal_gic.c:70-81 | One do-while walk appends the entries of one kind, in record order, and counts them. |
| `GicTable.Table.Visit` | sdei-acs-drv/sdei-acs-pal/files/src/pal_gic.c:72-80 | One iteration files one record and moves to the next one of the same parse, so all four walks see the same records. |
| `GicTable.ParseStream` | sdei-acs-drv/sdei-acs-pal/files/src/pal_gic.c:79-81 | Walking the bytes of any list of records gives those records back. |
| `GicTable.StreamParse` | sdei-acs-drv/sdei-acs-pal/files/src/pal_gic.c:79-81 | And the bytes of the records walked are the bytes of the table. |
| `GicTable.BytesExact` | sdei-acs-drv/sdei-acs-pal/files/src/pal_gic.c:79-81 | A record is its type, the length of the whole record, and the rest. |
| `GicTable.PresentExact` | sdei-acs-drv/sdei-acs-pal/files/src/pal_gic.c:70-127 | Records of type 0x0B, 0x0C, 0x0E and 0x0F are collected if the eight bytes at offset 32, 8, 4 and 8, as a little endian number, are not 0, and that is their base. |
| `GicTable.CollectExact` | sdei-acs-drv/sdei-acs-pal/files/src/pal_gic.c:70-127 | The entries of a kind are those of such records, one after the other. |
| `GicTable.VersionExact` | sdei-acs-drv/sdei-acs-pal/files/src/pal_gic.c:85-95 | The version is the byte at offset 20 of the last distributor with an address. |
| `GicTable.GroupsSorted` | sdei-acs-drv/sdei-acs-pal/files/src/pal_gic.c:70-130 | CPU interfaces come before distributors, those before redistributors, and those before translators. |
| `GicTable.TickedIs` | sdei-acs-drv/sdei-acs-pal/files/src/pal_gic.c:85-127 | A walk adds the number of its entries to its own count only. |
| `GicTable.EachOnce` | sdei-acs-drv/sdei-acs-pal/files/src/pal_gic.c:70-130 | Every record of a collected kind with a base address has exactly one entry. |
| `GicTable.FilledRead` | sdei-acs-drv/sdei-acs-pal/files/src/pal_gic.c:132-133 | A reader that goes up to the end mark finds exactly the groups. |
| `GicTable.TableRoundTrip` | sdei-acs-drv/sdei-acs-pal/files/src/pal_gic.c:42-134 | From records to bytes to table to reader: the groups of the records come out. |

## Left out

- The C union behind NODE_DATA is a tagged datatype, and a header is four cells: pal_interface.h, which fixes the layout, is not part of this model. In particular the store of 0 to rc.smmu_base (line 326) is modelled for root complexes only, the others being taken to have no live field there.
- The node type codes are an injective numbering; their values are not part of this model. A root complex's coherency attribute is given as masked on line 253.
- IORT references to PMCG nodes or to nodes of an unknown type from a mapping or a PMCG are excluded (DEN0049 gives PMCGs no incoming references; for the others line 325 would follow an invalid offset). Nodes of unknown type that are only walked are modelled.
- IovirtMain.CreateInfoTable: the arena must have room for everything that is written, scratch headers included, and a walk that reaches the end must have entered every PMCG's target before it, since otherwise the overlap pass and dump walk past the table.
- IovirtImage.AddImage: no root complex may be reached from another one of the same key; DEN0049 gives root complexes no incoming ID mappings, and then there is none.
- IovirtResolution.ResolutionPreserved: mappings do not lead to root complexes, which DEN0049 gives no incoming ID mappings; IovirtResolution.WalkAnswers does not need that.
- IovirtFlags.RunMarks: for output ranges of at least one identifier within 32 bits; for all others IovirtFlags.OverlapOnImage speaks of the test as written, and IovirtOverlap.MeetsAgainstSpec says what that is.
- IovirtFlags.AllSeenIff: for runs that leave one block per node, on IORTs where no target of a mapping looks like a different node; IovirtFlags.SeenIff and IovirtFlags.RunMarks hold without that.
- IovirtFlags.WalkMarks: for the same runs.
- IovirtMain.BuildAndResolve: for arenas with room and IORTs whose PMCGs come when their targets are known and whose mappings do not lead to root complexes.
- Counters and offsets of the tables are unbounded; identifiers, range ends and counts of mappings wrap at 32 bits as in the code, IOVA ranges at 64.
- IovirtPasses.CheckMappingOverlap: the entries that the pass reads behind a block's own are given by a function of the key mapping and the entry's number, fixed during the pass. Each such entry is read once, so that this covers all actual answers. Where the next block lies there its bytes decide, but how a header's bytes fall into the fields of an entry depends on pal_interface.h, which is not part of this model.
- IovirtPasses.CompareBlock: reads behind the block in the same way.
- IovirtOverlap.ExactIff: takes those answers to be free, as they are behind the last block.
- An identifier array that does not fill its last data map leaves the rest of it unspecified, as in the code.
- The device-tree builders and the fall-back to them, which rest on kernel calls that are not part of this model.
- The copies of these files for the SBSA suite and the patches for other kernel versions, which repeat the same logic.
- Appends and reads of the log are atomic steps of one session with one reader; the length of a formatted message and the printing to the kernel log are not modelled, nor is a first allocation that fails.
- MessageLog.Delivery: holds for runs without a failed growth; what happens otherwise is MessageLog.TailHoldsSince and MessageLog.AfterFailedGrowth.
- The fixed GTDT fields that are copied to the timer table's header, and the watchdog builder, whose output pointer never advances.
- What lies right behind a full block of the timer table is an arbitrary function of the block; the sizes of its arrays are parameters, with room for one block entry at least.
- IovaMonitor.CheckExact: for recorded sizes between 1 and 2^32 - 1 and ranges that end below 2^64; what holds for all others is IovaMonitor.CheckSound, IovaMonitor.SlotFaithfulIff, IovaMonitor.InRingExact and IovaMonitor.CutHidesLater.
- The translation of an IOVA to a physical address and the SATA host lookup are parameters; the tree does not change during a check, and concurrent maps are not interleaved with it.
- The register and configuration reads that fill one MSI vector, and the lock around the list of descriptors.
- The bytes of a routing entry: entries are given parsed.
- The contents of the MADT before its first record, and a MADT without records or with a record of length zero, on which the walks do not end properly.
- Page-table attributes, PASID tables, the SMMUv3 test engine, DMA and SCSI tests, firmware calls, interrupt registration, proc files, command dispatch, and memory and MMIO wrappers: hardware or kernel behaviour, or easy members only.
