/**
 Where the builder falls short of one block per node, with the inputs that show it and the exact
 conditions.
 */
module IovirtForward {
  import opened Iort
  import opened IovirtLayout
  import opened IovirtBuild
  import opened IovirtCounts
  import opened IovirtNames
  import opened IovirtRun
  import opened IovirtEntered
  import opened IovirtDedup
  import opened IovirtOverlap

  // ------------------------------------------------------------------ unseen recent blocks

  /** find_block examines exactly the first num_blocks blocks: with d blocks in progress the last d are not seen. */
  lemma {:induction false} FindExact(key: Block, st: State)
    requires st.numBlocks <= |st.blocks|
    ensures Find(key, st).InTable? <==> exists i :: 0 <= i < st.numBlocks && Matches(key, st.blocks[i])
    ensures !Find(key, st).Itself?
  {
    if i :| 0 <= i < st.numBlocks && Matches(key, st.blocks[i]) { SearchIsFirst(key, st.blocks, st.numBlocks, i); }
  }

  /** The header that node n is looked up under: a PMCG's names the block its target was given. */
  ghost function LookupKey(g: Iort, n: nat, st: State): (key: Block)
    requires g.Valid() && n in g.nodes
    ensures key.WellFormed() && key.kind == KindOf(g.nodes[n]) && key.maps == [] && key.numMaps == NumMaps(g.nodes[n])
  {
    Head(g.nodes[n], if g.nodes[n].PmcgNode? then AddPmcgTarget(g, n, st).ref else 0)
  }

  /**
   A node gets a block of its own exactly when every block that matches it is among the unseen last
   ones; a PMCG, which is never met in the middle of another node, only if its target is in the table.
   */
  lemma {:induction false} NewBlockIff(g: Iort, n: nat, st: State)
    requires g.Valid() && n in g.nodes && !g.nodes[n].BadNode? && st.numBlocks <= |st.blocks|
    requires g.nodes[n].PmcgNode? ==> st.numBlocks == |st.blocks|
    ensures |Add(g, n, st).st.blocks| > |st.blocks| <==>
            && PmcgReady(g, n, st)
            && forall i :: 0 <= i < |st.blocks| && Matches(LookupKey(g, n, st), st.blocks[i]) ==> i >= st.numBlocks
  {
    hide Add, AddKeyed, Fill, Matches, AddPmcgTarget;
    var key := LookupKey(g, n, st);
    FindExact(key, st);
    if !PmcgReady(g, n, st) {
      MissingTarget(g, n, st);
    } else {
      var peak := 0;
      if g.nodes[n].PmcgNode? {
        ReadyAdd(g, n, st);
        peak := AddPmcgTarget(g, n, st).peak;
      } else {
        AddIsLookup(g, n, st);
      }
      if Find(key, st).Nowhere? { FreshResult(g, n, st, key, peak); } else { FoundResult(g, n, st, key, peak); }
    }
  }

  // ------------------------------------------------------------------ a node referred to twice before its turn

  /** A node without mappings that is entered while no counted block is of its type is appended and counted. */
  lemma {:induction false} LeafAppended(g: Iort, n: nat, st: State)
    requires g.Valid() && n in g.nodes && (g.nodes[n].ItsNode? || (g.nodes[n].SmmuV3Node? && g.nodes[n].maps == []))
    requires st.numBlocks <= |st.blocks| && forall i :: 0 <= i < st.numBlocks ==>
             st.blocks[i].kind != KindOf(g.nodes[n])
    ensures var r, leaf := Add(g, n, st), Head(g.nodes[n], 0);
            && r.st.blocks == st.blocks + [leaf] && r.st.numBlocks == st.numBlocks + 1
            && r.ref == End(st.blocks) && r.seen == leaf
  {
    hide AddKeyed;
    hide Fill;
    var key := Head(g.nodes[n], 0);
    AddIsLookup(g, n, st);
    FreshResult(g, n, st, key, 0);
    FillDone(g, n, |st.blocks|, st.(blocks := st.blocks + [Own(g, n, key)]));
  }

  /**
   Node 0 is a root complex whose only two mappings lead to node 100, which is listed after it and has no
   mappings.
   */
  ghost predicate RefersTwice(g: Iort) {
    && g.Valid() && 0 in g.nodes && 100 in g.nodes
    && (g.nodes[100].ItsNode? || (g.nodes[100].SmmuV3Node? && g.nodes[100].maps == []))
    && g.nodes[0].RcNode? && |g.nodes[0].maps| == 2
    && g.nodes[0].maps[0].outputRef == 100 && g.nodes[0].maps[1].outputRef == 100
  }

  /** Filling in one of the two mappings makes a block for node 100, whatever was made before. */
  lemma {:induction false} RefMakesBlock(g: Iort, j: nat, st: State) returns (after: State)
    requires RefersTwice(g) && j < 2 && |st.blocks| > st.numBlocks && st.numBlocks <= 1 &&
             st.blocks[0].kind == RootComplex
    ensures after.blocks == (st.blocks + [Head(g.nodes[100], 0)])
                            [0 := WithEntry(st.blocks[0], g.nodes[0].maps[j], End(st.blocks), Head(g.nodes[100], 0))]
    ensures after.numBlocks == st.numBlocks + 1
    ensures Fill(g, 0, j, 0, st).st == Fill(g, 0, j + 1, 0, after).st
  {
    hide Add, Fill;
    FillStep(g, 0, j, 0, st);
    LeafAppended(g, 100, st);
    after := AfterEntry(g.nodes[0].maps[j], 0, Add(g, 100, st));
  }

  ghost predicate RefersTo(e: Entry, m: Mapping, ref: nat) { e == Entry(m.inputBase, m.idCount, m.outputBase, ref) }

  /** The blocks that entering node 0 leaves. */
  ghost predicate TwoLeaves(g: Iort, blocks: seq<Block>)
    requires RefersTwice(g)
  {
    var leaf := Head(g.nodes[100], 0);
    && |blocks| == 3 && blocks[1] == leaf && blocks[2] == leaf
    && blocks[0].kind == RootComplex && |blocks[0].maps| == 2
    && (forall j :: 0 <= j < 2 ==> RefersTo(blocks[0].maps[j], g.nodes[0].maps[j], Off(blocks, j + 1)))
  }

  lemma {:induction false} RcMakesTwo(g: Iort)
    requires RefersTwice(g)
    ensures var st := Add(g, 0, Empty()).st; TwoLeaves(g, st.blocks) && st.numBlocks == 3
  {
    hide Add, AddKeyed, Fill, Matches;
    var rc, s0 := Head(g.nodes[0], 0), Empty();
    AddIsLookup(g, 0, s0);
    FreshResult(g, 0, s0, rc, 0);
    var s1 := s0.(blocks := s0.blocks + [Own(g, 0, rc)]);
    assert s1.blocks == [Own(g, 0, rc)];
    hide TwoLeaves, Head, Off, Own;
    var s2 := RefMakesBlock(g, 0, s1);
    var s3 := RefMakesBlock(g, 1, s2);
    FillDone(g, 0, 0, s3);
    LeavesLaid(g, s1.blocks, s2.blocks, s3.blocks);
  }

  /** What the two steps leave. */
  lemma {:induction false} LeavesLaid(g: Iort, a: seq<Block>, b: seq<Block>, c: seq<Block>)
    requires RefersTwice(g) && |a| == 1 && a[0].kind == RootComplex && a[0].maps == []
    requires var leaf := Head(g.nodes[100], 0);
             && b == (a + [leaf])[0 := WithEntry(a[0], g.nodes[0].maps[0], End(a), leaf)]
             && c == (b + [leaf])[0 := WithEntry(b[0], g.nodes[0].maps[1], End(b), leaf)]
    ensures TwoLeaves(g, c)
  {
    hide Head;
    OffSame(a, c, 1);
    OffSame(b, c, 2);
  }

  /**
   The walk over both leaves two equal blocks for node 100: the second reference does not see the block the
   first one made.
   */
  lemma {:induction false} TwoBlocksForOne(g: Iort)
    requires RefersTwice(g) && AllIn(g, [0, 100])
    ensures TwoLeaves(g, Build(g, [0, 100], 2).blocks)
  {
    hide Add, AddKeyed;
    var order, leaf := [0, 100], Head(g.nodes[100], 0);
    RcMakesTwo(g);
    assert Build(g, order, 0) == Empty();
    var st := Build(g, order, 1);
    assert st == Add(g, 0, Empty()).st;
    AddIsLookup(g, 100, st);
    SearchIsFirst(leaf, st.blocks, 3, 1);
    FoundResult(g, 100, st, leaf, 0);
    assert Build(g, order, 2) == Add(g, 100, st).st;
  }

  /** A root complex listed before an ITS group it refers to twice. */
  function TwiceForward(): Iort {
    Iort(map[0 := RcNode(0, 0, 0, [Mapping(0, 10, 0, 100), Mapping(20, 10, 20, 100)]), 100 := ItsNode([7])],
         map[0 := 100, 100 := 24], 0, 2, 124, map[0 := 1, 100 := 0])
  }

  /** It leaves two equal blocks for the one ITS group. */
  lemma {:induction false} ForwardDuplicates()
    ensures TwiceForward().Valid() && AllIn(TwiceForward(), [0, 100])
    ensures var blocks := Build(TwiceForward(), [0, 100], 2).blocks;
            |blocks| == 3 && blocks[1] == blocks[2] && blocks[1].kind == ItsGroup
  {
    var g := TwiceForward();
    assert g.ValidNode(0) && g.ValidNode(100);
    TwoBlocksForOne(g);
  }

  /** A root complex listed before an SMMU that two of its mappings lead to, with output ranges that overlap. */
  function OverlapForward(): Iort {
    Iort(map[0 := RcNode(0, 0, 0, [Mapping(0, 10, 0, 100), Mapping(20, 10, 5, 100)]), 100 := SmmuV3Node(7, [])],
         map[0 := 100, 100 := 100], 0, 2, 200, map[0 := 1, 100 := 0])
  }

  /** The two entries name different blocks, so that an overlap of their ranges is not seen. */
  lemma {:induction false} OverlapOfTwo(g: Iort)
    requires RefersTwice(g) && AllIn(g, [0, 100])
    ensures var blocks := Build(g, [0, 100], 2).blocks;
            && |blocks| == 3 && |blocks[0].maps| == 2
            && RefersTo(blocks[0].maps[0], g.nodes[0].maps[0], Off(blocks, 1))
            && RefersTo(blocks[0].maps[1], g.nodes[0].maps[1], Off(blocks, 2))
            && !TrueOverlap(blocks, 0, false) && !TrueOverlap(blocks, 0, true)
  {
    TwoBlocksForOne(g);
    var blocks := Build(g, [0, 100], 2).blocks;
    assert blocks[1].maps == [] && blocks[2].maps == [];
    assert RefersTo(blocks[0].maps[0], g.nodes[0].maps[0], Off(blocks, 1));
    assert RefersTo(blocks[0].maps[1], g.nodes[0].maps[1], Off(blocks, 2));
    hide Build, RefersTwice, TwoLeaves, TrueOverlap;
    OffGrows(blocks, 1, 2);
    DifferentRefs(blocks);
  }

  lemma {:induction false} OverlapForwardFair()
    ensures OverlapForward().Valid() && AllIn(OverlapForward(), [0, 100]) && RefersTwice(OverlapForward())
  {
    var g := OverlapForward();
    assert g.ValidNode(0) && g.ValidNode(100);
  }

  /** Ranges 0-9 and 5-14 of one root complex lead to one SMMU, and neither flag is due. */
  lemma {:induction false} OverlapMissed(g: Iort)
    requires g == OverlapForward()
    ensures g.Valid() && AllIn(g, [0, 100])
    ensures var blocks := Build(g, [0, 100], 2).blocks;
            && |blocks| == 3 && |blocks[0].maps| == 2
            && Proper(blocks[0].maps[0]) && Proper(blocks[0].maps[1]) && Meets(blocks[0].maps[0], blocks[0].maps[1])
            && !TrueOverlap(blocks, 0, false) && !TrueOverlap(blocks, 0, true)
  {
    OverlapForwardFair();
    OverlapOfTwo(g);
    var m, n := g.nodes[0].maps[0], g.nodes[0].maps[1];
    assert m.idCount == 10 && m.outputBase == 0 && n.idCount == 10 && n.outputBase == 5;
    hide *;
    var blocks := Build(g, [0, 100], 2).blocks;
    TenAndTen(blocks[0].maps[0], m, Off(blocks, 1), blocks[0].maps[1], n, Off(blocks, 2));
  }

  lemma {:induction false} TenAndTen(x: Entry, m: Mapping, a: nat, y: Entry, n: Mapping, b: nat)
    requires RefersTo(x, m, a) && RefersTo(y, n, b)
    requires m.idCount == 10 && m.outputBase == 0 && n.idCount == 10 && n.outputBase == 5
    ensures Proper(x) && Proper(y) && Meets(x, y)
  {
    assert LastId(x) == 9 && LastId(y) == 14;
  }

  /** The only two entries of a table lead to different offsets. */
  lemma {:induction false} DifferentRefs(blocks: seq<Block>)
    requires |blocks| == 3 && |blocks[0].maps| == 2 && blocks[1].maps == [] && blocks[2].maps == []
    requires blocks[0].maps[0].outputRef != blocks[0].maps[1].outputRef
    ensures !TrueOverlap(blocks, 0, false) && !TrueOverlap(blocks, 0, true)
  {
    forall p, its ensures !Overlaps(blocks, p, its) {}
  }

  /** The same root complex with one reference: a forward reference alone duplicates nothing. */
  function OnceForward(): Iort {
    Iort(map[0 := RcNode(0, 0, 0, [Mapping(0, 10, 0, 100)]), 100 := ItsNode([7])],
         map[0 := 80, 100 := 24], 0, 2, 124, map[0 := 1, 100 := 0])
  }

  lemma {:induction false} OnceForwardFair(g: Iort)
    requires g == OnceForward()
    ensures g.Valid() && AllIn(g, [0, 100]) && LookAlike(g, 100, 100) && !LookAlike(g, 0, 100)
    ensures g.nodes[0].RcNode? && g.nodes[100].ItsNode? && |g.nodes[0].maps| == 1 && g.nodes[0].maps[0].outputRef == 100
  {
    assert g.ValidNode(0) && g.ValidNode(100);
  }

  lemma {:induction false} OnceForwardSingle(g: Iort)
    requires g == OnceForward()
    ensures g.Valid() && AllIn(g, [0, 100]) && SingleRun(g, [0, 100], 2)
  {
    OnceForwardFair(g);
    var order, laid, its := [0, 100], Laid(NO_NAMES, 0), NameList([0, 100], [[], []], 1);
    assert Listed(g, order, 0) == NO_NAMES && g.At(0) != g.At(100);
    hide Enter, Listed, LookAlike, OnceForward;
    EnterOne(g, 0, NO_NAMES);
    EnterLeaf(g, 100, laid);
    assert Laid(laid, 100).(finished := 1) == its;
    var wired := NameList([0, 100], [[1], []], 2);
    assert its.links[0] + [1] == [1] && its.links[0 := [1]] == wired.links;
    assert Wire(its, 0, 1).(finished := 2) == wired;
    ListedStep(g, order, 0);
    EnterKnown(g, wired, 1, 100);
    ListedStep(g, order, 1);
    RunSingleIff(g, order, 2);
  }

  // ------------------------------------------------------------------ PMCG nodes, read off the graph

  /** When PMCG node k of the order is entered, its target was entered before and is not an RC behind an SMMU. */
  ghost predicate TargetFirst(g: Iort, order: seq<nat>, k: nat)
    requires g.Valid() && AllIn(g, order) && k < |order|
  {
    assert g.ValidNode(order[k]);
    g.nodes[order[k]].PmcgNode? ==>
      Entered(g, order, k, g.nodes[order[k]].nodeRef) && Recognisable(g, g.nodes[order[k]].nodeRef)
  }

  ghost predicate TargetsFirst(g: Iort, order: seq<nat>, k: nat)
    requires g.Valid() && AllIn(g, order) && k <= |order|
  {
    k == 0 || (TargetsFirst(g, order, k - 1) && TargetFirst(g, order, k - 1))
  }

  /**
   The finished table counts exactly the blocks it holds if and only if every PMCG is listed after its target
   was entered.
   */
  lemma {:induction false} CountAgreesIff(g: Iort, order: seq<nat>, k: nat)
    requires g.Valid() && RcsApart(g) && KeyDetermines(g) && AllIn(g, order) && k <= |order|
    ensures CountAgrees(Build(g, order, k)) <==> TargetsFirst(g, order, k)
  {
    TiledIffReady(g, order, k);
    ReadyIffFirst(g, order, k);
  }

  lemma {:induction false} ReadyIffFirst(g: Iort, order: seq<nat>, k: nat)
    requires g.Valid() && RcsApart(g) && KeyDetermines(g) && AllIn(g, order) && k <= |order|
    ensures PmcgsReady(g, order, k) <==> TargetsFirst(g, order, k)
    decreases k
  {
    hide PmcgReady, Entered, Recognisable, KeyDetermines;
    if k > 0 {
      ReadyIffFirst(g, order, k - 1);
      if PmcgsReady(g, order, k - 1) {
        if g.nodes[order[k - 1]].PmcgNode? {
          ReadyIffEntered(g, order, k - 1);
        } else {
          NotPmcgReady(g, order[k - 1], Build(g, order, k - 1));
        }
      }
    }
  }

  lemma {:induction false} NotPmcgReady(g: Iort, n: nat, st: State)
    requires g.Valid() && n in g.nodes && !g.nodes[n].PmcgNode?
    ensures PmcgReady(g, n, st)
  {}

  /** A PMCG listed before the SMMU it monitors. */
  function PmcgFirst(): Iort {
    Iort(map[0 := PmcgNode(16, 5, 100, []), 100 := SmmuV3Node(32, []), 200 := NamedNode("dev", [])],
         map[0 := 100, 100 := 100, 200 := 100], 0, 3, 300, map[0 := 1, 100 := 0, 200 := 0])
  }

  /** Nothing at all is recorded, although blocks are counted. */
  lemma {:induction false} PmcgFirstRecordsNothing()
    ensures PmcgFirst().Valid() && AllIn(PmcgFirst(), [0, 100, 200])
    ensures var st := Build(PmcgFirst(), [0, 100, 200], 3);
            |st.blocks| == 0 && st.numBlocks > 0
  {
    var g, order := PmcgFirst(), [0, 100, 200];
    assert g.ValidNode(0) && g.ValidNode(100) && g.ValidNode(200);
    assert g.Valid();
    hide Add;
    assert |Build(g, order, 0).blocks| == 0 && Build(g, order, 0).numBlocks == 0;
    assert !ReadyAt(g, order, 0);
    LostAfter(g, order, 0, 3);
  }
}
