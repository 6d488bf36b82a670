/**
 Which nodes have a block after a run, and when a PMCG finds its target: first in terms of the walk on
 nodes, then, where keys tell nodes apart, in terms of what is reached from the nodes entered. Either
 is a condition that a caller can check on the IORT.
 */
module IovirtEntered {
  import opened Iort
  import opened IovirtLayout
  import opened IovirtBuild
  import opened IovirtCounts
  import opened IovirtNames
  import opened IovirtImage
  import opened IovirtRun

  // ------------------------------------------------------------------ blocks come from nodes below

  /** Block b carries the header of some node reached from n. */
  ghost predicate MadeBelow(g: Iort, n: nat, b: Block)
    requires g.Valid() && n in g.nodes
  {
    exists m :: m in g.nodes && g.Reaches(n, m) && HeadOf(g.nodes[m], b)
  }

  /** All blocks from number `from` on do. */
  ghost predicate NewBelow(g: Iort, n: nat, blocks: seq<Block>, from: nat)
    requires g.Valid() && n in g.nodes
  {
    forall i :: from <= i < |blocks| ==> MadeBelow(g, n, blocks[i])
  }

  lemma {:induction false} BelowTarget(g: Iort, n: nat, j: nat, b: Block)
    requires g.Valid() && n in g.nodes && j < |g.nodes[n].Maps()|
    requires g.nodes[n].Maps()[j].outputRef in g.nodes && MadeBelow(g, g.nodes[n].Maps()[j].outputRef, b)
    ensures MadeBelow(g, n, b)
  {
    var t := g.nodes[n].Maps()[j].outputRef;
    var m :| m in g.nodes && g.Reaches(t, m) && HeadOf(g.nodes[m], b);
    assert g.Reaches(n, m);
  }

  /** Every block a call adds is made from a node below the one added. */
  lemma {:induction false} AddMadeBelow(g: Iort, n: nat, st: State)
    requires g.Valid() && n in g.nodes && !g.nodes[n].BadNode? && st.numBlocks <= |st.blocks| && PmcgReady(g, n, st)
    ensures NewBelow(g, n, Add(g, n, st).st.blocks, |st.blocks|)
    decreases g.Rank(n), 1, 0
  {
    hide Add, AddKeyed, NewBelow;
    var node := g.nodes[n];
    if node.PmcgNode? {
      ReadyAdd(g, n, st);
      var t := AddPmcgTarget(g, n, st);
      KeyedMadeBelow(g, n, st, Head(node, t.ref), t.peak);
    } else {
      AddIsLookup(g, n, st);
      KeyedMadeBelow(g, n, st, Head(node, 0), 0);
    }
  }

  lemma {:induction false} KeyedMadeBelow(g: Iort, n: nat, st: State, key: Block, peak: nat)
    requires g.Valid() && n in g.nodes && !g.nodes[n].BadNode? && st.numBlocks <= |st.blocks|
    requires exists ref :: key == Head(g.nodes[n], ref)
    requires g.nodes[n].PmcgNode? || key == Head(g.nodes[n], 0)
    ensures NewBelow(g, n, AddKeyed(g, n, st, key, peak).st.blocks, |st.blocks|)
    decreases g.Rank(n), 0, |g.nodes[n].Maps()| + 1
  {
    hide AddKeyed, Fill, MadeBelow;
    if Find(key, st).Nowhere? {
      FreshResult(g, n, st, key, peak);
      var laid := st.(blocks := st.blocks + [Own(g, n, key)]);
      assert HeadOf(g.nodes[n], laid.blocks[|st.blocks|]);
      FillMadeBelow(g, n, 0, |st.blocks|, laid);
    } else {
      FoundResult(g, n, st, key, peak);
    }
  }

  lemma {:induction false} FillMadeBelow(g: Iort, n: nat, j: nat, k: nat, st: State)
    requires g.Valid() && n in g.nodes && j <= |g.nodes[n].Maps()| && k < |st.blocks| && st.numBlocks <= |st.blocks|
    requires HeadOf(g.nodes[n], st.blocks[k])
    ensures var f := Fill(g, n, j, k, st).st;
            MadeBelow(g, n, f.blocks[k]) && NewBelow(g, n, f.blocks, |st.blocks|)
    decreases g.Rank(n), 0, |g.nodes[n].Maps()| - j
  {
    hide Fill, Add;
    if j == |g.nodes[n].Maps()| {
      FillDone(g, n, k, st);
      assert g.Reaches(n, n);
    } else {
      FillStep(g, n, j, k, st);
      var m := g.nodes[n].Maps()[j];
      var r := Add(g, m.outputRef, st);
      AddMadeBelow(g, m.outputRef, st);
      AddConserves(g, m.outputRef, st);
      var st' := AfterEntry(m, k, r);
      FillMadeBelow(g, n, j + 1, k, st');
      var f := Fill(g, n, j, k, st).st;
      forall i | |st.blocks| <= i < |f.blocks| ensures MadeBelow(g, n, f.blocks[i]) {
        if i < |r.st.blocks| {
          assert f.blocks[i] == st'.blocks[i] == r.st.blocks[i];
          BelowTarget(g, n, j, f.blocks[i]);
        }
      }
      hide MadeBelow;
    }
  }

  // ------------------------------------------------------------------ PMCG targets, by the walk on nodes

  /** When PMCG node k of the order is entered, lookups know its target. */
  ghost predicate TargetKnown(g: Iort, order: seq<nat>, k: nat)
    requires g.Valid() && AllIn(g, order) && k < |order|
  {
    g.nodes[order[k]].PmcgNode? ==> Known(g, Listed(g, order, k), g.nodes[order[k]].nodeRef)
  }

  ghost predicate TargetsKnown(g: Iort, order: seq<nat>, k: nat)
    requires g.Valid() && AllIn(g, order) && k <= |order|
  {
    k == 0 || (TargetsKnown(g, order, k - 1) && TargetKnown(g, order, k - 1))
  }

  lemma {:induction false} ReadyIffKnown(g: Iort, order: seq<nat>, k: nat)
    requires g.Valid() && RcsApart(g) && AllIn(g, order) && k < |order| && PmcgsReady(g, order, k)
    ensures ReadyAt(g, order, k) <==> TargetKnown(g, order, k)
  {
    hide Find, Known, Empty;
    var n := order[k];
    if g.nodes[n].PmcgNode? {
      assert g.ValidNode(n);
      var t := g.nodes[n].nodeRef;
      RunImage(g, order, k);
      FoundIffKnown(g, t, Head(g.nodes[t], 0), Build(g, order, k), Listed(g, order, k), {});
    }
  }

  lemma {:induction false} AllReadyIffKnown(g: Iort, order: seq<nat>, k: nat)
    requires g.Valid() && RcsApart(g) && AllIn(g, order) && k <= |order|
    ensures PmcgsReady(g, order, k) <==> TargetsKnown(g, order, k)
    decreases k
  {
    hide ReadyAt, TargetKnown;
    if k > 0 {
      AllReadyIffKnown(g, order, k - 1);
      if PmcgsReady(g, order, k - 1) { ReadyIffKnown(g, order, k - 1); }
    }
  }

  /** The finished table counts exactly the blocks it holds if and only if every PMCG comes when its target is known. */
  lemma {:induction false} CountAgreesIffKnown(g: Iort, order: seq<nat>, k: nat)
    requires g.Valid() && RcsApart(g) && AllIn(g, order) && k <= |order|
    ensures CountAgrees(Build(g, order, k)) <==> TargetsKnown(g, order, k)
  {
    TiledIffReady(g, order, k);
    AllReadyIffKnown(g, order, k);
  }

  // ------------------------------------------------------------------ where keys tell nodes apart

  /** Some block was made from a node that says what n says. */
  ghost predicate Present(g: Iort, owner: seq<nat>, n: nat)
    requires n in g.nodes
  {
    exists x :: 0 <= x < |owner| && owner[x] in g.nodes && g.nodes[owner[x]] == g.nodes[n]
  }

  lemma {:induction false} RepresentedIsPresent(g: Iort, owner: seq<nat>, n: nat)
    requires KeyDetermines(g) && n in g.nodes && Represented(g, owner, n)
    requires forall x :: 0 <= x < |owner| ==> owner[x] in g.nodes
    ensures Present(g, owner, n)
  {
    var x :| 0 <= x < |owner| && Stands(g, owner[x], n);
    assert g.nodes[owner[x]] == g.nodes[n];
  }

  lemma {:induction false} LinkedIsPresent(g: Iort, blocks: seq<Block>, owner: seq<nat>, ref: nat, t: nat)
    requires KeyDetermines(g) && t in g.nodes && |owner| == |blocks|
    requires forall x :: 0 <= x < |owner| ==> owner[x] in g.nodes
    requires Linked(g, blocks, owner, ref, t) || FirstLinked(g, blocks, owner, ref, t)
    ensures Present(g, owner, t)
  {
    FirstIsLinked(g, blocks, owner, ref, t);
    hide FirstLinked;
    var x: nat :| LiesAt(blocks, x, ref) && Stands(g, owner[x], t);
    assert LookAlike(g, owner[x], t) || g.At(owner[x]) == g.At(t);
    assert g.nodes[owner[x]] == g.nodes[t];
  }

  lemma {:induction false} RefsPresent(g: Iort, blocks: seq<Block>, owner: seq<nat>, n: nat)
    requires g.Valid() && KeyDetermines(g) && Image(g, blocks, owner, {}) && n in g.nodes && Present(g, owner, n)
    ensures g.nodes[n].PmcgNode? ==> g.ValidRef(n, g.nodes[n].nodeRef) && Present(g, owner, g.nodes[n].nodeRef)
    ensures forall j {:trigger g.nodes[n].Maps()[j]} :: 0 <= j < |g.nodes[n].Maps()| ==>
              g.ValidRef(n, g.nodes[n].Maps()[j].outputRef) && Present(g, owner, g.nodes[n].Maps()[j].outputRef)
  {
    var node := g.nodes[n];
    assert g.ValidNode(n);
    var x :| 0 <= x < |owner| && owner[x] in g.nodes && g.nodes[owner[x]] == node;
    forall i | 0 <= i < |owner| ensures owner[i] in g.nodes { assert HeaderFaithful(g, blocks, owner, i); }
    assert HeaderFaithful(g, blocks, owner, x) && Faithful(g, blocks, owner, x);
    if node.PmcgNode? { LinkedIsPresent(g, blocks, owner, blocks[x].data.nodeRef, node.nodeRef); }
    hide KeyDetermines, Present, Linked, FirstLinked;
    forall j | 0 <= j < |node.Maps()| ensures Present(g, owner, node.Maps()[j].outputRef) {
      assert EntryOf(g, blocks, owner, blocks[x].maps[j], node.Maps()[j]);
      LinkedIsPresent(g, blocks, owner, blocks[x].maps[j].outputRef, node.Maps()[j].outputRef);
    }
  }

  /** What is present drags in everything it refers to. */
  lemma {:induction false} PresentCloses(g: Iort, blocks: seq<Block>, owner: seq<nat>, n: nat, m: nat)
    requires g.Valid() && KeyDetermines(g) && Image(g, blocks, owner, {}) && n in g.nodes && m in g.nodes
    requires Present(g, owner, n) && g.Reaches(n, m)
    ensures Present(g, owner, m)
    decreases g.Rank(n)
  {
    hide KeyDetermines, Image, Present;
    RefsPresent(g, blocks, owner, n);
    if n == m {
    } else if g.nodes[n].PmcgNode? && g.Reaches(g.nodes[n].nodeRef, m) {
      PresentCloses(g, blocks, owner, g.nodes[n].nodeRef, m);
    } else {
      var j :| 0 <= j < |g.nodes[n].Maps()| && g.Reaches(g.nodes[n].Maps()[j].outputRef, m);
      PresentCloses(g, blocks, owner, g.nodes[n].Maps()[j].outputRef, m);
    }
  }

  /** A node that says what t says is reached from one of the first k nodes of the order. */
  ghost predicate Entered(g: Iort, order: seq<nat>, k: nat, t: nat)
    requires g.Valid() && AllIn(g, order) && k <= |order| && t in g.nodes
  {
    exists i, m :: 0 <= i < k && !g.nodes[order[i]].BadNode? && m in g.nodes && g.Reaches(order[i], m) &&
      g.nodes[m] == g.nodes[t]
  }

  /** A node with a block is found again unless it is a root complex behind an SMMU. */
  lemma {:induction false} PresentIsFound(g: Iort, st: State, a: Names, t: nat)
    requires g.Valid() && Listing(g, st, a, {}) && st.numBlocks == |st.blocks|
    requires t in g.nodes && !g.nodes[t].BadNode? && !g.nodes[t].PmcgNode? && Present(g, a.owners, t) &&
             Recognisable(g, t)
    ensures Find(Head(g.nodes[t], 0), st).InTable?
  {
    PresentIsKnown(g, a, t);
    FoundIffKnown(g, t, Head(g.nodes[t], 0), st, a, {});
  }

  lemma {:induction false} PresentIsKnown(g: Iort, a: Names, t: nat)
    requires g.Valid() && t in g.nodes && !g.nodes[t].BadNode? && Present(g, a.owners, t) && Recognisable(g, t)
    requires a.finished == |a.owners|
    ensures Known(g, a, t)
  {
    SelfKey(g, t);
    var x :| 0 <= x < |a.owners| && a.owners[x] in g.nodes && g.nodes[a.owners[x]] == g.nodes[t];
    assert LookAlike(g, a.owners[x], t);
  }

  /** Lookups know a node exactly if it was entered before and is not an RC behind an SMMU. */
  lemma {:induction false} KnownIffEntered(g: Iort, order: seq<nat>, k: nat, t: nat)
    requires g.Valid() && RcsApart(g) && KeyDetermines(g) && AllIn(g, order) && k <= |order| && PmcgsReady(g, order, k)
    requires t in g.nodes && !g.nodes[t].BadNode?
    ensures Known(g, Listed(g, order, k), t) <==> Entered(g, order, k, t) && Recognisable(g, t)
  {
    hide Empty, Enter, PmcgReady, LookAlike, Recognisable, Image;
    var a := Listed(g, order, k);
    if Known(g, a, t) {
      var x :| 0 <= x < |a.owners| && x < a.finished && LookAlike(g, a.owners[x], t);
      var i := ListedReached(g, order, k, x);
      assert g.nodes[a.owners[x]] == g.nodes[t];
      LookIsRecognisable(g, a.owners[x], t);
    }
    if Entered(g, order, k, t) && Recognisable(g, t) {
      EnteredIsPresent(g, order, k, t);
      ListedCounts(g, order, k);
      PresentIsKnown(g, a, t);
    }
  }

  lemma {:induction false} LookIsRecognisable(g: Iort, m: nat, n: nat)
    requires LookAlike(g, m, n) && g.At(m) == g.At(n)
    ensures Recognisable(g, n)
  {}

  lemma {:induction false} EnteredIsPresent(g: Iort, order: seq<nat>, k: nat, t: nat)
    requires g.Valid() && RcsApart(g) && KeyDetermines(g) && AllIn(g, order) && k <= |order| && PmcgsReady(g, order, k)
    requires t in g.nodes && Entered(g, order, k, t)
    ensures Present(g, Listed(g, order, k).owners, t)
  {
    hide Empty, Enter, PmcgReady, Image;
    var a := Listed(g, order, k);
    RunImage(g, order, k);
    var i, m :| 0 <= i < k && !g.nodes[order[i]].BadNode? && m in g.nodes && g.Reaches(order[i], m) &&
      g.nodes[m] == g.nodes[t];
    ListedRepresents(g, order, k, i);
    forall x | 0 <= x < |a.owners| ensures a.owners[x] in g.nodes { var j := ListedReached(g, order, k, x); }
    RepresentedIsPresent(g, a.owners, order[i]);
    PresentCloses(g, Build(g, order, k).blocks, a.owners, order[i], m);
  }

  /**
   When earlier PMCGs were in order, the next one is exactly if its target was entered before and is not an RC
   behind an SMMU.
   */
  lemma {:induction false} ReadyIffEntered(g: Iort, order: seq<nat>, k: nat)
    requires g.Valid() && RcsApart(g) && KeyDetermines(g) && AllIn(g, order) && k < |order| && PmcgsReady(g, order, k)
    requires g.nodes[order[k]].PmcgNode?
    ensures var t := g.nodes[order[k]].nodeRef;
            t in g.nodes && (ReadyAt(g, order, k) <==> Entered(g, order, k, t) && Recognisable(g, t))
  {
    hide ReadyAt, Known, Entered;
    assert g.ValidNode(order[k]);
    ReadyIffKnown(g, order, k);
    KnownIffEntered(g, order, k, g.nodes[order[k]].nodeRef);
  }
}
