/**
 Whole runs of the builder: entering the nodes of the IORT one after the other. Where the run
 keeps the table tiled, and where it does not, is decided by the PMCG nodes alone.
 */
module IovirtRun {
  import opened Iort
  import opened IovirtLayout
  import opened IovirtBuild
  import opened IovirtCounts
  import opened IovirtNames
  import opened IovirtImage

  /** The state after entering the first k nodes of `order`. */
  ghost function Build(g: Iort, order: seq<nat>, k: nat): State
    requires g.Valid() && AllIn(g, order) && k <= |order|
  {
    if k == 0 then Empty() else Add(g, order[k - 1], Build(g, order, k - 1)).st
  }

  /** When node k of the order is entered, and it is a PMCG, its target is in the table. */
  ghost predicate ReadyAt(g: Iort, order: seq<nat>, k: nat)
    requires g.Valid() && AllIn(g, order) && k < |order|
  {
    PmcgReady(g, order[k], Build(g, order, k))
  }

  ghost predicate PmcgsReady(g: Iort, order: seq<nat>, k: nat)
    requires g.Valid() && AllIn(g, order) && k <= |order|
  {
    k == 0 || (PmcgsReady(g, order, k - 1) && ReadyAt(g, order, k - 1))
  }

  // ------------------------------------------------------------------ when nothing goes wrong

  /**
   The general counter is the number of blocks and the sum of the others, and each of those counts the blocks
   of its type.
   */
  ghost predicate Balanced(st: State) {
    && st.numBlocks == |st.blocks| == st.counts.Sum()
    && st.counts.itsGroups == Tally(st.blocks, ItsGroup)
    && st.counts.namedComponents == Tally(st.blocks, NamedComponent)
    && st.counts.pciRcs == Tally(st.blocks, RootComplex)
    && st.counts.smmus == Tally(st.blocks, Smmu)
    && st.counts.pmcgs == Tally(st.blocks, Pmcg)
  }

  lemma {:induction false} StaysBalanced(g: Iort, n: nat, st: State)
    requires g.Valid() && n in g.nodes && Balanced(st) && PmcgReady(g, n, st)
    ensures Balanced(Add(g, n, st).st)
  {
    AddConserves(g, n, st);
    AddSum(g, n, st);
  }

  /** With every PMCG's target already entered, the counters of the finished table are right. */
  lemma {:induction false} RunCounts(g: Iort, order: seq<nat>, k: nat)
    requires g.Valid() && AllIn(g, order) && k <= |order| && PmcgsReady(g, order, k)
    ensures Balanced(Build(g, order, k))
    decreases k
  {
    hide Empty, Add, PmcgReady, Balanced;
    if k > 0 {
      RunCounts(g, order, k - 1);
      StaysBalanced(g, order[k - 1], Build(g, order, k - 1));
    } else {
      EmptyBalanced(Empty());
    }
  }

  lemma {:induction false} EmptyBalanced(st: State)
    requires |st.blocks| == 0 && st.numBlocks == 0 && st.counts.Sum() == 0
    ensures Balanced(st)
  {}

  /**
   The finished table is a faithful image of the graph, and its blocks are exactly those that the
   walk on nodes lists.
   */
  lemma {:induction false} RunImage(g: Iort, order: seq<nat>, k: nat)
    requires g.Valid() && RcsApart(g) && AllIn(g, order) && k <= |order| && PmcgsReady(g, order, k)
    ensures Listing(g, Build(g, order, k), Listed(g, order, k), {})
    decreases k
  {
    hide Empty, PmcgReady, Add, Enter;
    if k > 0 {
      RunImage(g, order, k - 1);
      hide Listing;
      StepImage(g, order[k - 1], Build(g, order, k - 1), Listed(g, order, k - 1));
    }
  }

  lemma {:induction false} StepImage(g: Iort, n: nat, st: State, a: Names)
    requires g.Valid() && RcsApart(g) && n in g.nodes && Listing(g, st, a, {}) && PmcgReady(g, n, st)
    ensures Listing(g, Add(g, n, st).st, Enter(g, n, a), {})
  {
    if !g.nodes[n].BadNode? {
      AddImage(g, n, st, a, {});
    }
  }

  // ------------------------------------------------------------------ when a PMCG's target is missing

  /** Once more blocks are counted than laid out, no node ever gets a block again: each finds its own scratch copy. */
  lemma {:induction false} Stuck(g: Iort, n: nat, st: State)
    requires g.Valid() && n in g.nodes && st.numBlocks > |st.blocks|
    ensures Add(g, n, st).st.blocks == st.blocks && Add(g, n, st).st.numBlocks > |st.blocks|
  {}

  /** A PMCG whose target is not yet in the table leaves it with blocks counted that it does not hold. */
  lemma {:induction false} MissingTarget(g: Iort, n: nat, st: State)
    requires g.Valid() && n in g.nodes && st.numBlocks == |st.blocks| && !PmcgReady(g, n, st)
    ensures Add(g, n, st).st.blocks == st.blocks && Add(g, n, st).st.numBlocks > |st.blocks|
  {
    TargetLookup(g, n, st);
    var node := g.nodes[n];
    var key := Head(g.nodes[node.nodeRef], 0);
    var more := st.(blocks := st.blocks + [PmcgScratch(node)]);
    SearchPrefix(key, st.blocks, more.blocks, st.numBlocks);
    FreshResult(g, node.nodeRef, more, key, 0);
    var t := AddPmcgTarget(g, n, st);
    assert t.st.numBlocks > |st.blocks|;
    assert !Find(Head(node, t.ref), st.(numBlocks := t.st.numBlocks, counts := t.st.counts)).Nowhere?;
  }

  lemma {:induction false} StuckRun(g: Iort, order: seq<nat>, i: nat, k: nat)
    requires g.Valid() && AllIn(g, order) && i <= k <= |order|
    requires Build(g, order, i).numBlocks > |Build(g, order, i).blocks|
    ensures Build(g, order, k).blocks == Build(g, order, i).blocks &&
            Build(g, order, k).numBlocks > |Build(g, order, k).blocks|
    decreases k
  {
    hide Empty;
    hide Add;
    if i < k {
      StuckRun(g, order, i, k - 1);
      Stuck(g, order[k - 1], Build(g, order, k - 1));
    }
  }

  ghost predicate CountAgrees(st: State) { st.numBlocks == |st.blocks| }

  lemma {:induction false} AgreesStep(g: Iort, n: nat, st: State)
    requires g.Valid() && n in g.nodes && st.numBlocks >= |st.blocks|
    ensures var after := Add(g, n, st).st;
            && after.numBlocks >= |after.blocks|
            && (CountAgrees(after) <==> CountAgrees(st) && PmcgReady(g, n, st))
  {
    var after := Add(g, n, st).st;
    if st.numBlocks > |st.blocks| {
      Stuck(g, n, st);
    } else if PmcgReady(g, n, st) {
      assert CountAgrees(after) by { AddConserves(g, n, st); }
    } else {
      MissingTarget(g, n, st);
    }
  }

  /** The count agrees with the blocks in the table exactly when every PMCG came after its target. */
  lemma {:induction false} TiledIffReady(g: Iort, order: seq<nat>, k: nat)
    requires g.Valid() && AllIn(g, order) && k <= |order|
    ensures CountAgrees(Build(g, order, k)) <==> PmcgsReady(g, order, k)
    ensures Build(g, order, k).numBlocks >= |Build(g, order, k).blocks|
    decreases k
  {
    hide Empty;
    hide Add;
    hide PmcgReady;
    if k > 0 {
      TiledIffReady(g, order, k - 1);
      AgreesStep(g, order[k - 1], Build(g, order, k - 1));
    }
  }

  /** From the first PMCG that comes before its target on, nothing more is recorded. */
  lemma {:induction false} LostAfter(g: Iort, order: seq<nat>, i: nat, k: nat)
    requires g.Valid() && AllIn(g, order) && i < k <= |order|
    requires PmcgsReady(g, order, i) && !ReadyAt(g, order, i)
    ensures Build(g, order, k).blocks == Build(g, order, i).blocks
    ensures Build(g, order, k).numBlocks > |Build(g, order, k).blocks|
  {
    hide Empty;
    hide Add;
    hide PmcgReady;
    assert CountAgrees(Build(g, order, i)) by { TiledIffReady(g, order, i); }
    assert Build(g, order, i + 1).blocks == Build(g, order, i).blocks &&
           Build(g, order, i + 1).numBlocks > |Build(g, order, i).blocks| by {
      MissingTarget(g, order[i], Build(g, order, i));
    }
    StuckRun(g, order, i + 1, k);
  }
}
