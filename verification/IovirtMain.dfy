/**
 The public operations: building the table from the IORT, and the three queries on the finished
 table.
 */
module IovirtMain {
  import opened Iort
  import opened IovirtLayout
  import opened IovirtBuild
  import opened IovirtArena
  import opened IovirtTable
  import opened IovirtNames
  import opened IovirtImage
  import opened IovirtRun
  import opened IovirtEntered
  import opened IovirtResolve
  import opened IovirtResolution
  import opened IovirtOverlap
  import opened IovirtPasses
  import opened IovirtLinks
  import opened IovirtMerged
  import opened IovirtNodes

  // ------------------------------------------------------------------ the walk over the IORT

  /** Offset of node k: each node is followed by the next one, its length further on. */
  function NodeOff(g: Iort, k: nat): nat {
    if k == 0 then g.nodeOffset
    else
      var prev := NodeOff(g, k - 1);
      prev + if prev in g.lengths then g.lengths[prev] else 0
  }

  /** The first k nodes all start inside the table. */
  ghost predicate InBounds(g: Iort, k: nat) {
    forall i :: 0 <= i < k ==> NodeOff(g, i) < g.length
  }

  /** As long as the walk stays inside the table it lands on nodes. */
  ghost predicate Walkable(g: Iort) {
    forall k :: 0 <= k < g.nodeCount && InBounds(g, k + 1) ==> NodeOff(g, k) in g.nodes && NodeOff(g, k) in g.lengths
  }

  /** Nodes one behind the other: the first where the header says, each next one where the last one ends. */
  ghost predicate Consecutive(g: Iort, at: seq<nat>) {
    && (|at| > 0 ==> at[0] == g.nodeOffset)
    && forall i {:trigger Follows(g, at, i)} :: 0 < i < |at| ==> Follows(g, at, i)
  }

  ghost predicate Follows(g: Iort, at: seq<nat>, i: nat)
    requires 0 < i < |at|
  {
    at[i - 1] in g.lengths && at[i] == at[i - 1] + g.lengths[at[i - 1]]
  }

  /** A table that consists of these nodes, none of them empty, each starting inside the table. */
  ghost predicate LaidOut(g: Iort, at: seq<nat>) {
    && |at| == g.nodeCount && Consecutive(g, at)
    && forall i :: 0 <= i < |at| ==> at[i] in g.nodes && at[i] in g.lengths && g.lengths[at[i]] > 0 && at[i] < g.length
  }

  /** Where the node behind these nodes starts. */
  ghost function BehindLast(g: Iort, at: seq<nat>): nat {
    if at == [] then g.nodeOffset
    else if at[|at| - 1] in g.lengths then at[|at| - 1] + g.lengths[at[|at| - 1]] else at[|at| - 1]
  }

  lemma {:induction false} ConsecutivePush(g: Iort, at: seq<nat>, n: nat)
    requires Consecutive(g, at)
    requires (at != [] ==> at[|at| - 1] in g.lengths) && n == BehindLast(g, at)
    ensures Consecutive(g, at + [n])
  {
    forall i | 0 < i < |at + [n]| ensures Follows(g, at + [n], i) { assert i < |at| ==> Follows(g, at, i); }
  }

  /** The first k nodes the walk visits. */
  ghost function Order(g: Iort, k: nat): (order: seq<nat>)
    requires Walkable(g) && k <= g.nodeCount && InBounds(g, k)
    ensures |order| == k && AllIn(g, order) && Consecutive(g, order) && BehindLast(g, order) == NodeOff(g, k)
    ensures forall i :: 0 <= i < k ==> order[i] == NodeOff(g, i)
  {
    if k == 0 then [] else
      assert NodeOff(g, k - 1) in g.nodes;
      var before := Order(g, k - 1);
      ConsecutivePush(g, before, NodeOff(g, k - 1));
      before + [NodeOff(g, k - 1)]
  }

  /** On such a table the walk visits exactly these nodes, in this order, each of them once. */
  lemma {:induction false} LaidOutWalk(g: Iort, at: seq<nat>)
    requires LaidOut(g, at)
    ensures Walkable(g) && InBounds(g, g.nodeCount) && Order(g, g.nodeCount) == at
    ensures forall i, j :: 0 <= i < j < |at| ==> at[i] < at[j]
  {
    forall i | 0 <= i < |at| ensures NodeOff(g, i) == at[i] { LaidOutOff(g, at, i); }
    forall i, j | 0 <= i < j < |at| ensures at[i] < at[j] { LaidOutRises(g, at, i, j); }
  }

  lemma {:induction false} LaidOutOff(g: Iort, at: seq<nat>, i: nat)
    requires LaidOut(g, at) && i < |at|
    ensures NodeOff(g, i) == at[i]
  {
    if i > 0 {
      LaidOutOff(g, at, i - 1);
      assert Follows(g, at, i);
    }
  }

  lemma {:induction false} LaidOutRises(g: Iort, at: seq<nat>, i: nat, j: nat)
    requires LaidOut(g, at) && i < j < |at|
    ensures at[i] < at[j]
  {
    if i < j - 1 { LaidOutRises(g, at, i, j - 1); }
    assert Follows(g, at, j);
  }

  lemma {:induction false} BuildPrefix(g: Iort, a: seq<nat>, b: seq<nat>, k: nat)
    requires g.Valid() && AllIn(g, a) && AllIn(g, b) && k <= |a| && k <= |b|
    requires forall i :: 0 <= i < k ==> a[i] == b[i]
    ensures Build(g, a, k) == Build(g, b, k)
    decreases k
  {
    hide Add;
    if k > 0 { BuildPrefix(g, a, b, k - 1); }
  }

  /** Room for entering node k after the k nodes before it. */
  ghost predicate Fits(g: Iort, k: nat, size: nat)
    requires g.Valid() && Walkable(g) && k < g.nodeCount && InBounds(g, k + 1)
  {
    var order := Order(g, k + 1);
    Add(g, order[k], Build(g, order, k)).peak <= size
  }

  lemma {:induction false} EnterFacts(g: Iort, k: nat, node: nat, size: nat)
    requires g.Valid() && Walkable(g) && k < g.nodeCount && InBounds(g, k + 1) && node == NodeOff(g, k)
    requires Fits(g, k, size)
    ensures var order := Order(g, k + 1);
            && node in g.nodes && Build(g, order, k) == Build(g, Order(g, k), k)
            && Build(g, order, k + 1) == Add(g, node, Build(g, order, k)).st
            && Add(g, node, Build(g, order, k)).peak <= size
  {
    hide Add, Consecutive;
    BuildPrefix(g, Order(g, k), Order(g, k + 1), k);
  }

  /** One iteration of the top-level walk. */
  method EnterNode(t: Table, g: Iort, k: nat, node: nat, cur: nat) returns (next: nat)
    requires g.Valid() && Walkable(g) && k < g.nodeCount && InBounds(g, k + 1) && node == NodeOff(g, k)
    requires Fits(g, k, t.cells.Length)
    requires t.Holds(Build(g, Order(g, k), k)) && cur == End(Build(g, Order(g, k), k).blocks)
    modifies t, t.cells
    ensures t.Holds(Build(g, Order(g, k + 1), k + 1)) && next == End(Build(g, Order(g, k + 1), k + 1).blocks)
  {
    hide Add, Build, Fits, Walkable, InBounds, Order, NodeOff;
    EnterFacts(g, k, node, t.cells.Length);
    var ref;
    ref, next := t.AddBlock(g, node, cur, Build(g, Order(g, k + 1), k));
  }

  /** What the walk knows when it has come to node i. */
  lemma {:induction false} WalkStep(g: Iort, i: nat)
    requires Walkable(g) && i <= g.nodeCount
    ensures InBounds(g, 0) && NodeOff(g, 0) == g.nodeOffset
    ensures InBounds(g, i) ==> forall n :: n in Order(g, i) ==> n < g.length
    ensures i < g.nodeCount && NodeOff(g, i) >= g.length ==> !InBounds(g, g.nodeCount)
    ensures i < g.nodeCount && InBounds(g, i) && NodeOff(g, i) < g.length ==>
              && InBounds(g, i + 1) && NodeOff(g, i) in g.lengths
              && NodeOff(g, i + 1) == NodeOff(g, i) + g.lengths[NodeOff(g, i)]
  {
    hide Consecutive, BehindLast;
  }

  /**
   The walk of pal_iovirt_create_info_table, on any IORT: all nodes are entered in turn, each where the last one
   ends, and a node that starts past the end of the table stops the walk. If the table consists of nodes laid one
   behind the other, those are the nodes entered.
   */
  method EnterNodes(t: Table, g: Iort) returns (ok: bool, ghost visited: nat)
    requires g.Valid() && Walkable(g)
    requires forall k :: 0 <= k < g.nodeCount && InBounds(g, k + 1) ==> Fits(g, k, t.cells.Length)
    modifies t, t.cells
    ensures visited <= g.nodeCount && InBounds(g, visited)
    ensures ok <==> visited == g.nodeCount
    ensures !ok ==> BehindLast(g, Order(g, visited)) == NodeOff(g, visited) >= g.length
    ensures forall n :: n in Order(g, visited) ==> n < g.length
    ensures t.Holds(Build(g, Order(g, visited), visited))
    ensures forall at :: LaidOut(g, at) ==> ok && Order(g, visited) == at
  {
    WalkStep(g, 0);
    hide LaidOut, NodeOff, InBounds, Walkable, Fits, Consecutive;
    forall at | LaidOut(g, at) ensures InBounds(g, g.nodeCount) && Order(g, g.nodeCount) == at { LaidOutWalk(g, at); }
    t.numBlocks := 0;
    t.numSmmus, t.numPciRcs, t.numNamedComponents, t.numItsGroups, t.numPmcgs := 0, 0, 0, 0, 0;
    var next, node, i := FIRST, g.nodeOffset, 0;
    visited := 0;
    assert t.Holds(Build(g, Order(g, 0), 0)) && next == End(Build(g, Order(g, 0), 0).blocks);
    hide Order, Build, Empty;
    while i < g.nodeCount
      invariant i <= g.nodeCount && visited == i && InBounds(g, i) && node == NodeOff(g, i)
      invariant t.Holds(Build(g, Order(g, i), i)) && next == End(Build(g, Order(g, i), i).blocks)
    {
      WalkStep(g, i);
      if node >= g.length {
        return false, i;
      }
      next := EnterNode(t, g, i, node, next);
      node := node + g.lengths[node];
      i := i + 1;
      visited := i;
      WalkStep(g, i);
    }
    ok := true;
  }

  /** The pass writes flags only, so that every entry still leads to a block. */
  lemma {:induction false} LinkableFlagged(blocks: seq<Block>, over: Overrun)
    requires Linkable(blocks) && AllFlagged(blocks)
    ensures Linkable(Flagged(blocks, over))
  {
    var f := Flagged(blocks, over);
    forall a | 0 <= a < |f| && HasMaps(f[a]) ensures Complete(f, a) {
      assert Complete(blocks, a) && f[a].maps == blocks[a].maps;
      forall k | 0 <= k < |f[a].maps| ensures IsBlock(f, f[a].maps[k].outputRef) {
        StaysBlock(blocks, f, blocks[a].maps[k].outputRef);
      }
    }
  }

  /** The blocks of the finished table, after the overlap pass. */
  ghost function FinishedBlocks(g: Iort, order: seq<nat>, k: nat, over: Overrun): (s: seq<Block>)
    requires g.Valid() && AllIn(g, order) && k <= |order| && PmcgsReady(g, order, k)
    ensures Linkable(s) && AllFlagged(s) && |s| == |Build(g, order, k).blocks|
  {
    RunLinks(g, order, k);
    LinksSuffice(Build(g, order, k).blocks);
    LinkableFlagged(Build(g, order, k).blocks, over);
    Flagged(Build(g, order, k).blocks, over)
  }

  /**
   pal_iovirt_create_info_table. After a walk that was stopped the overlap pass does not run. It walks
   num_blocks blocks, so a complete walk needs the count to agree with the blocks laid out: every PMCG
   after its target.
   */
  method CreateInfoTable(t: Table, g: Iort, over: Overrun) returns (ok: bool, ghost visited: nat)
    requires g.Valid() && Walkable(g)
    requires forall k :: 0 <= k < g.nodeCount && InBounds(g, k + 1) ==> Fits(g, k, t.cells.Length)
    requires InBounds(g, g.nodeCount) ==> PmcgsReady(g, Order(g, g.nodeCount), g.nodeCount)
    modifies t, t.cells
    ensures visited <= g.nodeCount && InBounds(g, visited)
    ensures ok <==> visited == g.nodeCount
    ensures !ok ==> NodeOff(g, visited) >= g.length && t.Holds(Build(g, Order(g, visited), visited))
    ensures forall at :: LaidOut(g, at) ==> ok && Order(g, visited) == at
    ensures ok ==> var order := Order(g, visited);
                   && Linkable(Build(g, order, visited).blocks) && AllFlagged(Build(g, order, visited).blocks)
                   && PmcgsReady(g, order, visited) && Linkable(FinishedBlocks(g, order, visited, over))
                   && t.Holds(Build(g, order, visited).(blocks := FinishedBlocks(g, order, visited, over)))
  {
    ok, visited := EnterNodes(t, g);
    if ok {
      ghost var order := Order(g, visited);
      ghost var blocks := Build(g, order, visited).blocks;
      RunCounts(g, order, visited);
      RunLinks(g, order, visited);
      LinksSuffice(blocks);
      CheckMappingOverlap(t, over, blocks);
    }
  }

  /** Some block of the table stands for node n: it carries n's header, or that of a node lookups took for n. */
  ghost predicate HasBlock(g: Iort, blocks: seq<Block>, owner: seq<nat>, n: nat) {
    exists x :: 0 <= x < |blocks| == |owner| && Stands(g, owner[x], n) && HeadOf(g.At(owner[x]), blocks[x])
  }

  lemma {:induction false} FinishedHasBlock(g: Iort, order: seq<nat>, k: nat, over: Overrun, i: nat)
    requires g.Valid() && RcsApart(g) && AllIn(g, order) && i < k <= |order| && PmcgsReady(g, order, k)
    requires !g.nodes[order[i]].BadNode?
    ensures HasBlock(g, FinishedBlocks(g, order, k, over), Listed(g, order, k).owners, order[i])
  {
    var built, s := Build(g, order, k).blocks, FinishedBlocks(g, order, k, over);
    RunLinks(g, order, k);
    LinksSuffice(built);
    hide Build, Listed, PmcgsReady, Stands, HeadOf, HasBlock;
    var x := NodeRecorded(g, order, k, i);
    HeaderStays(g, built, s, Listed(g, order, k).owners, order[i], x);
  }

  lemma {:induction false} HeaderStays(g: Iort, a: seq<Block>, b: seq<Block>, owner: seq<nat>, n: nat, x: nat)
    requires x < |a| == |b| == |owner| && b[x] == a[x].(flags := b[x].flags)
    requires Stands(g, owner[x], n) && HeadOf(g.At(owner[x]), a[x])
    ensures HasBlock(g, b, owner, n)
  {}

  /**
   The whole table: of an IORT that consists of the nodes at these offsets, one behind the other, every node is
   entered once and in order, and has a block that stands for it when the table is finished.
   */
  method CreateWholeTable(t: Table, g: Iort, over: Overrun, ghost at: seq<nat>)
    requires g.Valid() && RcsApart(g) && LaidOut(g, at) && TargetsKnown(g, at, |at|)
    requires forall k :: 0 <= k < |at| ==> Add(g, at[k], Build(g, at, k)).peak <= t.cells.Length
    modifies t, t.cells
    ensures PmcgsReady(g, at, |at|)
    ensures t.Holds(Build(g, at, |at|).(blocks := FinishedBlocks(g, at, |at|, over)))
    ensures forall i :: 0 <= i < |at| && !g.nodes[at[i]].BadNode? ==>
              HasBlock(g, FinishedBlocks(g, at, |at|, over), Listed(g, at, |at|).owners, at[i])
  {
    LaidOutWalk(g, at);
    AllReadyIffKnown(g, at, |at|);
    forall k | 0 <= k < g.nodeCount && InBounds(g, k + 1) ensures Fits(g, k, t.cells.Length) {
      BuildPrefix(g, at, Order(g, k + 1), k);
    }
    forall i | 0 <= i < |at| && !g.nodes[at[i]].BadNode?
      ensures HasBlock(g, FinishedBlocks(g, at, |at|, over), Listed(g, at, |at|).owners, at[i])
    {
      FinishedHasBlock(g, at, |at|, over, i);
    }
    hide *;
    var ok, visited := CreateInfoTable(t, g, over);
  }

  // ------------------------------------------------------------------ the flag queries

  /** pal_iovirt_check_unique_ctx_intid: 0 if the block carries the context interrupt flag, 1 otherwise. */
  method CheckUniqueCtxIntid(t: Table, block: nat, ghost blocks: seq<Block>, ghost x: nat) returns (r: nat)
    requires Tiled(t.cells[..], blocks) && x < |blocks| && block == Off(blocks, x) && blocks[x].flags.Flags?
    ensures r == 0 || r == 1
    ensures r == 1 <==> !blocks[x].flags.ctxIntClash
  {
    assert Lays(t.cells[..], Off(blocks, x), blocks[x]);
    if t.cells[block + 3].f.ctxIntClash { return 0; }
    r := 1;
  }

  /** pal_iovirt_unique_rid_strid_map: 0 if the block carries the stream ID overlap flag, 1 otherwise. */
  method UniqueRidStridMap(t: Table, block: nat, ghost blocks: seq<Block>, ghost x: nat) returns (r: nat)
    requires Tiled(t.cells[..], blocks) && x < |blocks| && block == Off(blocks, x) && blocks[x].flags.Flags?
    ensures r == 0 || r == 1
    ensures r == 1 <==> !blocks[x].flags.stridOverlap
  {
    assert Lays(t.cells[..], Off(blocks, x), blocks[x]);
    if t.cells[block + 3].f.stridOverlap { return 0; }
    r := 1;
  }

  /**
   The context interrupt verdict survives the build and the overlap pass: for the block of an
   SMMUv1/v2 it says whether the low words of the node's context interrupts are pairwise distinct.
   */
  lemma {:induction false} CtxVerdict(g: Iort, blocks: seq<Block>, owner: seq<nat>, over: Overrun, x: nat)
    requires Image(g, blocks, owner, {}) && AllFlagged(blocks) && x < |blocks| && g.At(owner[x]).SmmuNode?
    ensures !Flagged(blocks, over)[x].flags.ctxIntClash <==> CtxDistinct(g.At(owner[x]).ctxInts)
  {
    assert HeaderFaithful(g, blocks, owner, x);
  }

  /** The block that node i of the order is given when it is entered stays its block. */
  lemma {:induction false} PlaceKept(g: Iort, order: seq<nat>, i: nat, k: nat)
    requires g.Valid() && AllIn(g, order) && i < k <= |order| && !g.nodes[order[i]].BadNode?
    ensures var x, a := PlaceOf(g, Listed(g, order, i), order[i]), Listed(g, order, k);
            x < |a.owners| && Stands(g, a.owners[x], order[i])
  {
    hide Enter, PlaceOf, Stands, Listed;
    EnterPlaces(g, order[i], Listed(g, order, i));
    ListedStep(g, order, i);
    ListedKept(g, order, i + 1, k, PlaceOf(g, Listed(g, order, i), order[i]));
  }

  /**
   Every SMMUv1/v2 walked has the verdict of its stand-in, the node of the same base and number of mappings that
   its block was made from; so the verdict is right if and only if the two agree.
   */
  lemma {:induction false} SmmuVerdict(g: Iort, order: seq<nat>, k: nat, i: nat, over: Overrun)
    requires g.Valid() && RcsApart(g) && AllIn(g, order) && i < k <= |order| && PmcgsReady(g, order, k)
    requires g.nodes[order[i]].SmmuNode?
    ensures var x, a, s := PlaceOf(g, Listed(g, order, i), order[i]), Listed(g, order, k),
              FinishedBlocks(g, order, k, over);
            && x < |a.owners| == |s| && g.At(a.owners[x]).SmmuNode? && s[x].flags.Flags?
            && (!s[x].flags.ctxIntClash <==> CtxDistinct(g.At(a.owners[x]).ctxInts))
            && ((!s[x].flags.ctxIntClash <==> CtxDistinct(g.nodes[order[i]].ctxInts)) <==>
                  (CtxDistinct(g.At(a.owners[x]).ctxInts) <==> CtxDistinct(g.nodes[order[i]].ctxInts)))
  {
    hide PlaceOf, Build, Listed, PmcgsReady, CtxDistinct, Image;
    PlaceKept(g, order, i, k);
    RunImage(g, order, k);
    RunLinks(g, order, k);
    LinksSuffice(Build(g, order, k).blocks);
    CtxVerdict(g, Build(g, order, k).blocks, Listed(g, order, k).owners, over,
               PlaceOf(g, Listed(g, order, i), order[i]));
  }

  /** Two SMMU nodes of the same base without mappings. */
  function TwoSmmus(base: nat, a: seq<nat>, b: seq<nat>): Iort {
    Iort(map[0 := SmmuNode(base, a, []), 100 := SmmuNode(base, b, [])], map[0 := 100, 100 := 100], 0, 2, 200,
         map[0 := 0, 100 := 0])
  }

  const PAIR: seq<nat> := [0, 100]

  lemma {:induction false} TwoSmmusFair(g: Iort, base: nat, a: seq<nat>, b: seq<nat>)
    requires g == TwoSmmus(base, a, b)
    ensures g.Valid() && RcsApart(g) && AllIn(g, PAIR) && |PAIR| == 2 && PAIR[0] == 0 && PAIR[1] == 100
    ensures g.nodes[0] == SmmuNode(base, a, []) && g.nodes[100] == SmmuNode(base, b, []) && LookAlike(g, 0, 100)
  {
    assert g.ValidNode(0) && g.ValidNode(100);
  }

  lemma {:induction false} TwoSmmusListed(g: Iort, base: nat, a: seq<nat>, b: seq<nat>)
    requires g == TwoSmmus(base, a, b) && g.Valid() && AllIn(g, PAIR) && |PAIR| == 2
    ensures PlaceOf(g, Listed(g, PAIR, 1), 100) == 0 && Listed(g, PAIR, 2) == Laid(NO_NAMES, 0).(finished := 1)
  {
    TwoSmmusFair(g, base, a, b);
    assert Listed(g, PAIR, 0) == NO_NAMES;
    hide TwoSmmus, Enter, Listed, LookAlike, PlaceOf, PAIR;
    EnterLeaf(g, 0, NO_NAMES);
    ListedStep(g, PAIR, 0);
    EnterKnown(g, Listed(g, PAIR, 1), 0, 100);
    ListedStep(g, PAIR, 1);
  }

  /** The second is taken for the first, and a clash among its context interrupts is lost with it. */
  lemma {:induction false} ClashLost(g: Iort, base: nat, a: seq<nat>, b: seq<nat>, over: Overrun)
    requires g == TwoSmmus(base, a, b) && CtxDistinct(a) && !CtxDistinct(b)
    ensures g.Valid() && RcsApart(g) && AllIn(g, PAIR) && |PAIR| == 2 && PmcgsReady(g, PAIR, 2)
    ensures var s := FinishedBlocks(g, PAIR, 2, over); |s| == 1 && s[0].flags.Flags? && !s[0].flags.ctxIntClash
  {
    TwoSmmusFair(g, base, a, b);
    NoPmcgs(g, PAIR, 2);
    TwoSmmusListed(g, base, a, b);
    assert g.At(0).SmmuNode? && g.At(0).ctxInts == a;
    hide TwoSmmus, PlaceOf, Listed, FinishedBlocks, CtxDistinct, LookAlike, PmcgsReady, PAIR;
    SmmuVerdict(g, PAIR, 2, 1, over);
  }

  /** The stream ID verdict: 0 exactly for a true overlap of stream IDs or a stray hit behind the block. */
  lemma {:induction false} StridVerdict(g: Iort, blocks: seq<Block>, owner: seq<nat>, over: Overrun, x: nat)
    requires Image(g, blocks, owner, {}) && AllFlagged(blocks) && x < |blocks|
    ensures Flagged(blocks, over)[x].flags.stridOverlap <==>
            TrueOverlap(blocks, x, false) || StrayHit(blocks, over, x, false)
    ensures Flagged(blocks, over)[x].flags.devidOverlap <==>
            TrueOverlap(blocks, x, true) || StrayHit(blocks, over, x, true)
  {
    assert HeaderFaithful(g, blocks, owner, x);
    MarkedExactly(blocks, over, x, true);
    MarkedExactly(blocks, over, x, false);
  }

  // ------------------------------------------------------------------ the resolution query

  /** First mapping of block x that takes rid: its number, or num_data_map if none does. */
  method FindMapping(t: Table, block: nat, id: u32, ghost blocks: seq<Block>, ghost x: nat) returns (j: nat)
    requires Tiled(t.cells[..], blocks) && x < |blocks| && block == Off(blocks, x) &&
             |blocks[x].maps| == blocks[x].numMaps
    ensures j <= |blocks[x].maps|
    ensures j < |blocks[x].maps| ==> FirstTaking(blocks[x].maps, id, j)
    ensures j < |blocks[x].maps| ==> EntryAt(t.cells[..], block + HDR + 4 * j, blocks[x].maps[j])
    ensures j == |blocks[x].maps| ==> forall i :: 0 <= i < j ==> !Takes(blocks[x].maps[i], id)
  {
    assert Lays(t.cells[..], Off(blocks, x), blocks[x]);
    j := 0;
    while j < t.cells[block + 1].w
      invariant j <= |blocks[x].maps|
      invariant forall i :: 0 <= i < j ==> !Takes(blocks[x].maps[i], id)
    {
      assert EntryAt(t.cells[..], block + HDR + 4 * j, blocks[x].maps[j]);
      var base, count := t.cells[block + HDR + 4 * j].w, t.cells[block + HDR + 4 * j + 1].w;
      if id >= base && id <= Add32(base, count) { return; }
      j := j + 1;
    }
  }

  /** One block of the outer loop: does it serve the requester, and if so with which identifier and reference. */
  method ServeAt(t: Table, block: nat, seg: u32, rid: u32, ghost blocks: seq<Block>, ghost x: nat)
    returns (hit: bool, id: u32, oref: nat, ghost j: nat)
    requires Tiled(t.cells[..], blocks) && Linkable(blocks) && x < |blocks| && block == Off(blocks, x)
    ensures hit <==> BlockServes(blocks[x], seg, rid)
    ensures hit ==> FirstTaking(blocks[x].maps, rid, j) && oref == blocks[x].maps[j].outputRef
                    && id == Translate(rid, blocks[x].maps[j].inputBase, blocks[x].maps[j].outputBase)
  {
    assert Lays(t.cells[..], Off(blocks, x), blocks[x]);
    assert HasMaps(blocks[x]) ==> Complete(blocks, x);
    hit, id, oref, j := false, 0, 0, 0;
    if t.cells[block].w == Code(RootComplex) && t.cells[block + 2].d.segment == seg {
      CodeInjective(blocks[x].kind, RootComplex);
      var m := FindMapping(t, block, rid, blocks, x);
      if m < t.cells[block + 1].w {
        var at := block + HDR + 4 * m;
        id := Translate(rid, t.cells[at].w, t.cells[at + 2].w);
        oref := t.cells[at + 3].w;
        hit, j := true, m;
      }
    }
  }

  /** pal_iovirt_get_rc_smmu_base. */
  method GetRcSmmuBase(t: Table, seg: u32, rid: u32, ghost blocks: seq<Block>) returns (ans: nat)
    requires Tiled(t.cells[..], blocks) && t.numBlocks == |blocks| && Linkable(blocks)
    ensures TableAnswers(blocks, seg, rid, ans)
  {
    hide BlockServes;
    hide Takes;
    var found, id: u32, oref := false, 0, 0;
    ghost var bi: nat, bj: nat := 0, 0;
    var i, block := 0, FIRST;
    while i < t.numBlocks
      invariant i <= |blocks| && block == Off(blocks, i)
      invariant !found ==> NoneServing(blocks, i, seg, rid)
      invariant found ==> LastBlockServing(blocks, i, seg, rid, bi) && FirstTaking(blocks[bi].maps, rid, bj)
      invariant found ==> oref == blocks[bi].maps[bj].outputRef
      invariant found ==> id == Translate(rid, blocks[bi].maps[bj].inputBase, blocks[bi].maps[bj].outputBase)
    {
      var hit, newId, newRef, j := ServeAt(t, block, seg, rid, blocks, i);
      if hit {
        found, id, oref := true, newId, newRef;
        bi, bj := i, j;
      }
      assert Lays(t.cells[..], Off(blocks, i), blocks[i]);
      block := block + HDR + 4 * t.cells[block + 1].w;
      i := i + 1;
    }
    if !found { return NOT_FOUND; }
    assert HasMaps(blocks[bi]) by { ServerIsRc(blocks[bi], seg, rid); }
    ans := BaseLookup(t, oref, id, blocks, bi, bj);
    assert BaseBehind(blocks, blocks[bi].maps[bj], rid, ans);
    assert !NoneServing(blocks, |blocks|, seg, rid);
  }

  lemma {:induction false} ServerIsRc(b: Block, seg: u32, rid: u32)
    requires BlockServes(b, seg, rid)
    ensures b.kind == RootComplex
  {}

  /** The second level: if the mapping leads to an SMMU one of whose mappings takes the identifier, its base; else 0. */
  method BaseLookup(t: Table, oref: nat, sid: u32, ghost blocks: seq<Block>, ghost i: nat, ghost j: nat)
      returns (ans: nat)
    requires Tiled(t.cells[..], blocks) && Linkable(blocks) && i < |blocks| && HasMaps(blocks[i]) &&
             j < |blocks[i].maps|
    requires oref == blocks[i].maps[j].outputRef
    ensures exists x: nat {:trigger LiesAt(blocks, x, oref)} :: LiesAt(blocks, x, oref) && ans == BaseAt(blocks[x], sid)
  {
    assert Complete(blocks, i) && IsBlock(blocks, blocks[i].maps[j].outputRef);
    ghost var x: nat :| LiesAt(blocks, x, blocks[i].maps[j].outputRef);
    assert Lays(t.cells[..], Off(blocks, x), blocks[x]);
    assert HasMaps(blocks[x]) ==> Complete(blocks, x);
    ans := 0;
    if t.cells[oref].w == Code(Smmu) || t.cells[oref].w == Code(SmmuV3) {
      assert blocks[x].IsSmmu();
      var k := FindMapping(t, oref, sid, blocks, x);
      if k < t.cells[oref + 1].w {
        ans := t.cells[oref + 2].d.base;
      }
    }
    assert ans == BaseAt(blocks[x], sid);
  }

  ghost predicate DifferInFlags(a: seq<Block>, b: seq<Block>) {
    |a| == |b| && forall i :: 0 <= i < |a| ==> b[i] == a[i].(flags := b[i].flags)
  }

  lemma {:induction false} BaseIgnoresFlags(a: seq<Block>, b: seq<Block>, e: Entry, rid: u32, ans: nat)
    requires DifferInFlags(a, b) && BaseBehind(b, e, rid, ans)
    ensures BaseBehind(a, e, rid, ans)
  {
    var sid := Translate(rid, e.inputBase, e.outputBase);
    var x: nat :| LiesAt(b, x, e.outputRef) && ans == BaseAt(b[x], sid);
    OffSame(a, b, x);
    assert LiesAt(a, x, e.outputRef);
    assert BaseAt(a[x], sid) == BaseAt(b[x], sid);
  }

  lemma {:induction false} FlagsIgnored(a: seq<Block>, b: seq<Block>, seg: u32, rid: u32, ans: nat)
    requires DifferInFlags(a, b) && TableAnswers(b, seg, rid, ans)
    ensures TableAnswers(a, seg, rid, ans)
  {
    forall i | 0 <= i < |a| ensures BlockServes(a[i], seg, rid) <==> BlockServes(b[i], seg, rid) {}
    hide BlockServes, Takes, BaseBehind;
    if !NoneServing(b, |b|, seg, rid) {
      var i: nat, j: nat :| LastBlockServing(b, |b|, seg, rid, i) && FirstTaking(b[i].maps, rid, j) &&
        BaseBehind(b, b[i].maps[j], rid, ans);
      assert LastBlockServing(a, |a|, seg, rid, i) && FirstTaking(a[i].maps, rid, j);
      BaseIgnoresFlags(a, b, a[i].maps[j], rid, ans);
    }
  }

  /** The flags play no part in the answer. */
  lemma {:induction false} AnswersIgnoreFlags(a: seq<Block>, b: seq<Block>, seg: u32, rid: u32, ans: nat)
    requires DifferInFlags(a, b)
    ensures TableAnswers(a, seg, rid, ans) <==> TableAnswers(b, seg, rid, ans)
  {
    hide TableAnswers;
    assert DifferInFlags(b, a);
    if TableAnswers(b, seg, rid, ans) { FlagsIgnored(a, b, seg, rid, ans); }
    if TableAnswers(a, seg, rid, ans) { FlagsIgnored(b, a, seg, rid, ans); }
  }

  /** On the table CreateInfoTable leaves the query has one answer, the one read off the walk. */
  lemma {:induction false} FinishedAnswers(g: Iort, order: seq<nat>, k: nat, over: Overrun, seg: u32, rid: u32,
      ans: nat)
    requires g.Valid() && RcsApart(g) && AllIn(g, order) && k <= |order| && PmcgsReady(g, order, k)
    ensures TableAnswers(FinishedBlocks(g, order, k, over), seg, rid, ans) <==>
            ans == WalkAnswer(g, order, k, seg, rid)
  {
    var a, b := Build(g, order, k).blocks, FinishedBlocks(g, order, k, over);
    RunLinks(g, order, k);
    LinksSuffice(a);
    assert DifferInFlags(a, b);
    hide FinishedBlocks, Build, TableAnswers, PmcgsReady, WalkAnswer, DifferInFlags;
    AnswersIgnoreFlags(a, b, seg, rid, ans);
    WalkAnswers(g, order, k, seg, rid, ans);
  }

  /** The answer read off the walk is the one on the IORT's root complexes exactly if the stand-in agrees. */
  lemma {:induction false} WalkAnswerExact(g: Iort, order: seq<nat>, k: nat, seg: u32, rid: u32)
    requires g.Valid() && RcsNeverTargets(g) && AllIn(g, order) && k <= |order| && PmcgsReady(g, order, k)
    ensures WalkAnswer(g, order, k, seg, rid) == RecordedAnswer(g, order, k, seg, rid) <==>
            WalkAgrees(g, order, k, seg, rid)
    ensures ServerKept(g, order, k, seg, rid) ==>
              (WalkAnswer(g, order, k, seg, rid) == IortAnswer(g, order, k, seg, rid) <==>
                 WalkAgrees(g, order, k, seg, rid))
  {
    hide Build, TableAnswers, PmcgsReady, WalkAnswer, WalkAgrees, RcsNeverTargets, ServerKept;
    NeverTargetsApart(g);
    WalkAnswers(g, order, k, seg, rid, WalkAnswer(g, order, k, seg, rid));
    ResolutionPreserved(g, order, k, seg, rid, WalkAnswer(g, order, k, seg, rid));
    SameServerIff(g, order, k, seg, rid);
  }

  /**
   End to end: on the table CreateInfoTable leaves, what GetRcSmmuBase returns is the resolution of
   the requester on the root complexes recorded if and only if the SMMU standing in at the mapping that answers
   agrees with its target.
   */
  lemma {:induction false} RecordedEndToEnd(g: Iort, order: seq<nat>, k: nat, over: Overrun, seg: u32, rid: u32,
      ans: nat)
    requires g.Valid() && RcsNeverTargets(g) && AllIn(g, order) && k <= |order| && PmcgsReady(g, order, k)
    ensures TableAnswers(FinishedBlocks(g, order, k, over), seg, rid, ans) ==>
              (ans == RecordedAnswer(g, order, k, seg, rid) <==> WalkAgrees(g, order, k, seg, rid))
  {
    hide FinishedBlocks, Build, TableAnswers, PmcgsReady, WalkAnswer, WalkAgrees, RecordedAnswer, RcsNeverTargets;
    NeverTargetsApart(g);
    FinishedAnswers(g, order, k, over, seg, rid, ans);
    WalkAnswerExact(g, order, k, seg, rid);
  }

  /**
   And it is the resolution on all nodes of the IORT in their order if and only if they agree, wherever the root
   complex that answers there is kept.
   */
  lemma {:induction false} EndToEnd(g: Iort, order: seq<nat>, k: nat, over: Overrun, seg: u32, rid: u32, ans: nat)
    requires g.Valid() && RcsNeverTargets(g) && AllIn(g, order) && k <= |order| && PmcgsReady(g, order, k)
    ensures TableAnswers(FinishedBlocks(g, order, k, over), seg, rid, ans) && ServerKept(g, order, k, seg, rid) ==>
              (ans == IortAnswer(g, order, k, seg, rid) <==> WalkAgrees(g, order, k, seg, rid))
  {
    hide FinishedBlocks, Build, TableAnswers, PmcgsReady, WalkAnswer, WalkAgrees, RcsNeverTargets, ServerKept;
    NeverTargetsApart(g);
    FinishedAnswers(g, order, k, over, seg, rid, ans);
    WalkAnswerExact(g, order, k, seg, rid);
  }

  /** Asking a table that the walk has left, before the overlap pass or after it. */
  method Resolve(t: Table, g: Iort, seg: u32, rid: u32, ghost order: seq<nat>, ghost k: nat, ghost over: Overrun,
      ghost passed: bool)
    returns (ans: nat)
    requires g.Valid() && RcsApart(g) && AllIn(g, order) && k <= |order| && PmcgsReady(g, order, k)
    requires var st := Build(g, order, k);
             t.Holds(if passed then st.(blocks := FinishedBlocks(g, order, k, over)) else st)
    ensures ans == WalkAnswer(g, order, k, seg, rid)
  {
    hide Build, FinishedBlocks, PmcgsReady, RcsApart, WalkAnswer, TableAnswers, Tiled, Linkable;
    ghost var built := Build(g, order, k).blocks;
    RunCounts(g, order, k);
    RunLinks(g, order, k);
    LinksSuffice(built);
    ans := GetRcSmmuBase(t, seg, rid, if passed then FinishedBlocks(g, order, k, over) else built);
    FinishedAnswers(g, order, k, over, seg, rid, ans);
    WalkAnswers(g, order, k, seg, rid, ans);
  }

  /**
   Building the table and then asking, on any IORT whose PMCGs come when their targets are known: with the walk
   complete or stopped at the end of the table, the answer is the one read off the nodes walked; it is that of
   the root complexes recorded, and of the IORT where its server is kept, exactly if the stand-in agrees.
   */
  method BuildAndResolve(t: Table, g: Iort, over: Overrun, seg: u32, rid: u32)
    returns (ok: bool, ghost visited: nat, ans: nat)
    requires g.Valid() && RcsNeverTargets(g) && Walkable(g)
    requires forall k :: 0 <= k < g.nodeCount && InBounds(g, k + 1) ==> Fits(g, k, t.cells.Length)
    requires forall k :: 0 <= k <= g.nodeCount && InBounds(g, k) ==> TargetsKnown(g, Order(g, k), k)
    modifies t, t.cells
    ensures visited <= g.nodeCount && InBounds(g, visited) && (ok <==> visited == g.nodeCount)
    ensures ans == WalkAnswer(g, Order(g, visited), visited, seg, rid)
    ensures ans == RecordedAnswer(g, Order(g, visited), visited, seg, rid) <==>
            WalkAgrees(g, Order(g, visited), visited, seg, rid)
    ensures ServerKept(g, Order(g, visited), visited, seg, rid) ==>
              (ans == IortAnswer(g, Order(g, visited), visited, seg, rid) <==>
                 WalkAgrees(g, Order(g, visited), visited, seg, rid))
    ensures forall at :: LaidOut(g, at) ==> ok && Order(g, visited) == at
  {
    hide Order, Build, TargetsKnown, PmcgsReady, RcsNeverTargets, WalkAnswer, WalkAgrees, RecordedAnswer, ServerKept,
      IortAnswer, Walkable, Fits, RcsApart, FinishedBlocks, Linkable, AllFlagged;
    NeverTargetsApart(g);
    if InBounds(g, g.nodeCount) { AllReadyIffKnown(g, Order(g, g.nodeCount), g.nodeCount); }
    ok, visited := CreateInfoTable(t, g, over);
    hide InBounds;
    AllReadyIffKnown(g, Order(g, visited), visited);
    ans := Resolve(t, g, seg, rid, Order(g, visited), visited, over, ok);
    WalkAnswerExact(g, Order(g, visited), visited, seg, rid);
  }
}
