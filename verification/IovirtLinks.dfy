/** Every entry leads to a block, whatever the nodes say: what the later passes need to follow references safely. */
module IovirtLinks {
  import opened Iort
  import opened IovirtLayout
  import opened IovirtBuild
  import opened IovirtCounts
  import opened IovirtNames
  import opened IovirtRun
  import opened IovirtOverlap

  /** Block b is finished: all its entries are there and its flags are written. */
  predicate Finished(b: Block) {
    b.flags.Flags? && (b.kind != ItsGroup ==> |b.maps| == b.numMaps)
  }

  lemma {:induction false} StaysBlock(a: seq<Block>, b: seq<Block>, ref: nat)
    requires IsBlock(a, ref) && |a| <= |b| && SameShape(a, b, |a|)
    ensures IsBlock(b, ref)
  {
    var x: nat :| LiesAt(a, x, ref);
    OffSame(a, b, x);
    assert LiesAt(b, x, ref);
  }

  lemma {:induction false} AddLinks(g: Iort, n: nat, st: State)
    requires g.Valid() && n in g.nodes && !g.nodes[n].BadNode? && st.numBlocks <= |st.blocks| && PmcgReady(g, n, st)
    requires AllLink(st.blocks)
    ensures var r := Add(g, n, st);
            && AllLink(r.st.blocks) && IsBlock(r.st.blocks, r.ref)
            && forall i :: |st.blocks| <= i < |r.st.blocks| ==> Finished(r.st.blocks[i])
    decreases g.Rank(n), 1, 0
  {
    hide AddKeyed;
    var node := g.nodes[n];
    assert g.ValidNode(n);
    if node.PmcgNode? {
      ReadyTarget(g, n, st);
      var t := AddPmcgTarget(g, n, st);
      KeyedLinks(g, n, st, Head(node, t.ref), t.peak);
    } else {
      AddIsLookup(g, n, st);
      KeyedLinks(g, n, st, Head(node, 0), 0);
    }
  }

  lemma {:induction false} KeyedLinks(g: Iort, n: nat, st: State, key: Block, peak: nat)
    requires g.Valid() && n in g.nodes && !g.nodes[n].BadNode? && st.numBlocks <= |st.blocks|
    requires key.WellFormed() && key.kind == KindOf(g.nodes[n]) && key.maps == [] && key.numMaps == NumMaps(g.nodes[n])
    requires AllLink(st.blocks)
    ensures var r := AddKeyed(g, n, st, key, peak);
            && AllLink(r.st.blocks) && IsBlock(r.st.blocks, r.ref)
            && forall i :: |st.blocks| <= i < |r.st.blocks| ==> Finished(r.st.blocks[i])
    decreases g.Rank(n), 0, |g.nodes[n].Maps()| + 1
  {
    hide AddKeyed;
    hide Fill;
    if Find(key, st).Nowhere? {
      FreshResult(g, n, st, key, peak);
      var laid := st.(blocks := st.blocks + [Own(g, n, key)]);
      forall i, k | 0 <= i < |laid.blocks| && 0 <= k < |laid.blocks[i].maps| ensures IsBlock(laid.blocks,
        laid.blocks[i].maps[k].outputRef) {
        StaysBlock(st.blocks, laid.blocks, st.blocks[i].maps[k].outputRef);
      }
      FillLinks(g, n, 0, |st.blocks|, laid);
      assert LiesAt(AddKeyed(g, n, st, key, peak).st.blocks, |st.blocks|, AddKeyed(g, n, st, key, peak).ref);
    } else {
      FoundResult(g, n, st, key, peak);
      assert LiesAt(st.blocks, Find(key, st).index, AddKeyed(g, n, st, key, peak).ref);
    }
  }

  lemma {:induction false} FillLinks(g: Iort, n: nat, j: nat, k: nat, st: State)
    requires g.Valid() && n in g.nodes && j <= |g.nodes[n].Maps()| && k < |st.blocks| && st.numBlocks <= |st.blocks|
    requires AllLink(st.blocks) && st.blocks[k].flags.Flags? && |st.blocks[k].maps| == j
    requires st.blocks[k].kind != ItsGroup ==> st.blocks[k].numMaps == |g.nodes[n].Maps()|
    ensures var f := Fill(g, n, j, k, st).st;
            && AllLink(f.blocks) && Finished(f.blocks[k])
            && forall i :: |st.blocks| <= i < |f.blocks| ==> Finished(f.blocks[i])
    decreases g.Rank(n), 0, |g.nodes[n].Maps()| - j
  {
    hide Fill;
    hide Add;
    if j == |g.nodes[n].Maps()| {
      FillDone(g, n, k, st);
    } else {
      FillStep(g, n, j, k, st);
      var m := g.nodes[n].Maps()[j];
      var r := Add(g, m.outputRef, st);
      AddConserves(g, m.outputRef, st);
      AddLinks(g, m.outputRef, st);
      var st' := AfterEntry(m, k, r);
      EntryLinks(r.st.blocks, st'.blocks, k, m, r);
      FillLinks(g, n, j + 1, k, st');
      var f := Fill(g, n, j, k, st).st;
      forall i | |st.blocks| <= i < |f.blocks| ensures Finished(f.blocks[i]) {
        if i < |r.st.blocks| { assert f.blocks[i] == st'.blocks[i] == r.st.blocks[i]; }
      }
    }
  }

  lemma {:induction false} EntryLinks(a: seq<Block>, b: seq<Block>, k: nat, m: Mapping, r: Added)
    requires k < |a| && AllLink(a) && IsBlock(a, r.ref) && b == a[k := WithEntry(a[k], m, r.ref, r.seen)]
    ensures AllLink(b)
  {
    forall i, l | 0 <= i < |b| && 0 <= l < |b[i].maps| ensures IsBlock(b, b[i].maps[l].outputRef) {
      if i == k && l == |a[k].maps| {
        StaysBlock(a, b, r.ref);
      } else {
        assert b[i].maps[l] == a[i].maps[l];
        StaysBlock(a, b, a[i].maps[l].outputRef);
      }
    }
  }

  lemma {:induction false} StepLinks(g: Iort, n: nat, st: State)
    requires g.Valid() && n in g.nodes && st.numBlocks == |st.blocks| && PmcgReady(g, n, st)
    requires AllLink(st.blocks) && forall i :: 0 <= i < |st.blocks| ==> Finished(st.blocks[i])
    ensures AllLink(Add(g, n, st).st.blocks) && forall i :: 0 <= i < |Add(g, n, st).st.blocks| ==>
            Finished(Add(g, n, st).st.blocks[i])
  {
    if !g.nodes[n].BadNode? {
      AddLinks(g, n, st);
      var r := Add(g, n, st).st;
      forall i | 0 <= i < |r.blocks| ensures Finished(r.blocks[i]) {
        if i < |st.blocks| { assert r.blocks[i] == r.blocks[..|st.blocks|][i]; }
      }
    }
  }

  /** A run whose PMCGs come after their targets leaves only finished blocks whose entries lead to blocks. */
  lemma {:induction false} RunLinks(g: Iort, order: seq<nat>, k: nat)
    requires g.Valid() && AllIn(g, order) && k <= |order| && PmcgsReady(g, order, k)
    ensures AllLink(Build(g, order, k).blocks)
    ensures forall i :: 0 <= i < |Build(g, order, k).blocks| ==> Finished(Build(g, order, k).blocks[i])
    decreases k
  {
    hide Empty;
    hide Add;
    hide PmcgReady;
    if k > 0 {
      RunLinks(g, order, k - 1);
      RunCounts(g, order, k - 1);
      StepLinks(g, order[k - 1], Build(g, order, k - 1));
    }
  }

  lemma {:induction false} LinksSuffice(blocks: seq<Block>)
    requires AllLink(blocks) && forall i :: 0 <= i < |blocks| ==> Finished(blocks[i])
    ensures Linkable(blocks) && AllFlagged(blocks)
  {
    forall a | 0 <= a < |blocks| && HasMaps(blocks[a]) ensures Complete(blocks, a) {
      assert Finished(blocks[a]);
    }
    assert forall a :: 0 <= a < |blocks| ==> Finished(blocks[a]);
  }
}
