/**
 Conservation of counts: what adding a node does to the number of blocks and to the five
 per-type counters, including calls that end in a duplicate.
 */
module IovirtCounts {
  import opened Iort
  import opened IovirtLayout
  import opened IovirtBuild

  /** The PMCG's target is already in the part of the table that lookups see. */
  ghost predicate PmcgReady(g: Iort, n: nat, st: State)
    requires g.Valid() && n in g.nodes
  {
    g.nodes[n].PmcgNode? ==> Find(Head(g.At(g.nodes[n].nodeRef), 0), st).InTable?
  }

  predicate SameCounter(a: Kind, b: Kind) {
    a == b || (a == Smmu && b == SmmuV3) || (a == SmmuV3 && b == Smmu)
  }

  /** How many of the first k blocks share the counter of `kind`. */
  function TallyTo(blocks: seq<Block>, k: nat, kind: Kind): nat
    requires k <= |blocks|
  {
    if k == 0 then 0
    else TallyTo(blocks, k - 1, kind) + if SameCounter(blocks[k - 1].kind, kind) then 1 else 0
  }

  function Tally(blocks: seq<Block>, kind: Kind): nat { TallyTo(blocks, |blocks|, kind) }

  lemma {:induction false} TallyKinds(a: seq<Block>, b: seq<Block>, k: nat, kind: Kind)
    requires k <= |a| && k <= |b| && forall i :: 0 <= i < k ==> a[i].kind == b[i].kind
    ensures TallyTo(a, k, kind) == TallyTo(b, k, kind)
    decreases k
  {
    if k > 0 { TallyKinds(a, b, k - 1, kind); }
  }

  lemma {:induction false} TallyPush(blocks: seq<Block>, b: Block, kind: Kind)
    ensures Tally(blocks + [b], kind) == Tally(blocks, kind) + if SameCounter(b.kind, kind) then 1 else 0
  {
    TallyKinds(blocks, blocks + [b], |blocks|, kind);
  }

  /** Looking up behind one more in-progress block of another kind gives the same answer. */
  lemma {:induction false} SearchPrefix(key: Block, a: seq<Block>, b: seq<Block>, n: nat)
    requires n <= |a| && n <= |b| && a[..n] == b[..n]
    ensures Search(key, a, n) == Search(key, b, n)
    decreases n
  {
    if n > 0 {
      assert a[..n - 1] == a[..n][..n - 1] && b[..n - 1] == b[..n][..n - 1];
      assert a[n - 1] == a[..n][n - 1] && b[n - 1] == b[..n][n - 1];
      SearchPrefix(key, a, b, n - 1);
    }
  }

  /** A ready PMCG's target is found where it is and nothing is added for it. */
  lemma {:induction false} ReadyTarget(g: Iort, n: nat, st: State)
    requires g.Valid() && n in g.nodes && g.nodes[n].PmcgNode? && PmcgReady(g, n, st)
    requires st.numBlocks <= |st.blocks|
    ensures var f := Find(Head(g.At(g.nodes[n].nodeRef), 0), st);
            var t := AddPmcgTarget(g, n, st);
            f.InTable? && t.ref == Off(st.blocks, f.index) && t.st.numBlocks == st.numBlocks && t.st.counts == st.counts
  {
    var ref := g.nodes[n].nodeRef;
    assert g.ValidNode(n);
    var key := Head(g.At(ref), 0);
    var more := st.blocks + [PmcgScratch(g.nodes[n])];
    assert st.blocks[..st.numBlocks] == more[..st.numBlocks];
    SearchPrefix(key, st.blocks, more, st.numBlocks);
    var i := Find(key, st).index;
    OffSame(st.blocks, more, i);
    assert Find(key, st.(blocks := more)) == InTable(i);
    TargetLookup(g, n, st);
  }

  /** A ready PMCG goes straight to the lookup with its target's offset in the key. */
  lemma {:induction false} ReadyAdd(g: Iort, n: nat, st: State)
    requires g.Valid() && n in g.nodes && g.nodes[n].PmcgNode? && PmcgReady(g, n, st)
    requires st.numBlocks <= |st.blocks|
    ensures var t := AddPmcgTarget(g, n, st);
            Add(g, n, st) == AddKeyed(g, n, st, Head(g.nodes[n], t.ref), t.peak)
  {
    ReadyTarget(g, n, st);
    hide AddKeyed, AddPmcgTarget, Find;
  }

  /** Counters against block number: true of every call, broken or not. */
  lemma {:induction false} AddSum(g: Iort, n: nat, st: State)
    requires g.Valid() && n in g.nodes
    ensures Add(g, n, st).st.counts.Sum() - st.counts.Sum() == Add(g, n, st).st.numBlocks - st.numBlocks
    decreases g.Rank(n), 1, 0
  {
    var node := g.nodes[n];
    assert g.ValidNode(n);
    if node.BadNode? {
    } else if node.PmcgNode? {
      AddSum(g, node.nodeRef, st.(blocks := st.blocks + [PmcgScratch(node)]));
      var t := AddPmcgTarget(g, n, st);
      KeyedSum(g, n, st.(numBlocks := t.st.numBlocks, counts := t.st.counts), Head(node, t.ref), t.peak);
    } else {
      KeyedSum(g, n, st, Head(node, 0), 0);
    }
  }

  lemma {:induction false} KeyedSum(g: Iort, n: nat, st: State, key: Block, peak: nat)
    requires g.Valid() && n in g.nodes && !g.nodes[n].BadNode?
    requires key.WellFormed() && key.kind == KindOf(g.nodes[n]) && key.maps == [] && key.numMaps == NumMaps(g.nodes[n])
    ensures var r := AddKeyed(g, n, st, key, peak);
            r.st.counts.Sum() - st.counts.Sum() == r.st.numBlocks - st.numBlocks
    decreases g.Rank(n), 0, |g.nodes[n].Maps()| + 1
  {
    if Find(key, st).Nowhere? {
      var own := Own(g, n, key);
      FillSum(g, n, 0, |st.blocks|, st.(blocks := st.blocks + [own]));
    }
  }

  lemma {:induction false} FillSum(g: Iort, n: nat, j: nat, k: nat, st: State)
    requires g.Valid() && n in g.nodes && j <= |g.nodes[n].Maps()| && k < |st.blocks|
    ensures var f := Fill(g, n, j, k, st);
            f.st.counts.Sum() - st.counts.Sum() == f.st.numBlocks - st.numBlocks
    decreases g.Rank(n), 0, |g.nodes[n].Maps()| - j
  {
    hide Fill;
    hide Add;
    if j == |g.nodes[n].Maps()| {
      FillDone(g, n, k, st);
    } else {
      FillStep(g, n, j, k, st);
      var m := g.nodes[n].Maps()[j];
      AddSum(g, m.outputRef, st);
      var r := Add(g, m.outputRef, st);
      FillSum(g, n, j + 1, k, AfterEntry(m, k, r));
    }
  }

  /** For each counter, how many blocks of its types are laid out but not counted yet. */
  datatype Debt = Debt(itsGroups: int, namedComponents: int, pciRcs: int, smmus: int, pmcgs: int)

  function Owed(st: State): Debt {
    Debt(Tally(st.blocks, ItsGroup) - st.counts.itsGroups,
         Tally(st.blocks, NamedComponent) - st.counts.namedComponents,
         Tally(st.blocks, RootComplex) - st.counts.pciRcs,
         Tally(st.blocks, Smmu) - st.counts.smmus,
         Tally(st.blocks, Pmcg) - st.counts.pmcgs)
  }

  /**
   A call lays down as many blocks as it counts, in total and per type; what its callers still owe does not
   change.
   */
  ghost predicate Conserved(before: State, after: State) {
    after.numBlocks - before.numBlocks == |after.blocks| - |before.blocks| && Owed(after) == Owed(before)
  }

  /** Laying a block down adds one to its type's debt, and counting it pays that off. */
  lemma {:induction false} LaidThenCounted(st: State, b: Block, f: State)
    requires Owed(f) == Owed(st.(blocks := st.blocks + [b])) && !b.kind.Invalid?
    ensures Owed(f.(counts := f.counts.Bump(b.kind), numBlocks := f.numBlocks + 1)) == Owed(st)
  {
    TallyPush(st.blocks, b, ItsGroup);
    TallyPush(st.blocks, b, NamedComponent);
    TallyPush(st.blocks, b, RootComplex);
    TallyPush(st.blocks, b, Smmu);
    TallyPush(st.blocks, b, Pmcg);
  }

  /** Filling in an entry changes no type. */
  lemma {:induction false} OwedKinds(a: State, b: State)
    requires a.counts == b.counts && |a.blocks| == |b.blocks|
    requires forall i :: 0 <= i < |a.blocks| ==> a.blocks[i].kind == b.blocks[i].kind
    ensures Owed(a) == Owed(b)
  {
    TallyKinds(a.blocks, b.blocks, |a.blocks|, ItsGroup);
    TallyKinds(a.blocks, b.blocks, |a.blocks|, NamedComponent);
    TallyKinds(a.blocks, b.blocks, |a.blocks|, RootComplex);
    TallyKinds(a.blocks, b.blocks, |a.blocks|, Smmu);
    TallyKinds(a.blocks, b.blocks, |a.blocks|, Pmcg);
  }

  lemma {:induction false} AddConserves(g: Iort, n: nat, st: State)
    requires g.Valid() && n in g.nodes && st.numBlocks <= |st.blocks| && PmcgReady(g, n, st)
    ensures Conserved(st, Add(g, n, st).st)
    decreases g.Rank(n), 1, 0
  {
    var node := g.nodes[n];
    assert g.ValidNode(n);
    if node.PmcgNode? {
      ReadyTarget(g, n, st);
      var t := AddPmcgTarget(g, n, st);
      KeyedConserves(g, n, st, Head(node, t.ref), t.peak);
    } else if !node.BadNode? {
      KeyedConserves(g, n, st, Head(node, 0), 0);
    }
  }

  lemma {:induction false} KeyedConserves(g: Iort, n: nat, st: State, key: Block, peak: nat)
    requires g.Valid() && n in g.nodes && !g.nodes[n].BadNode? && st.numBlocks <= |st.blocks|
    requires key.WellFormed() && key.kind == KindOf(g.nodes[n]) && key.maps == [] && key.numMaps == NumMaps(g.nodes[n])
    ensures Conserved(st, AddKeyed(g, n, st, key, peak).st)
    decreases g.Rank(n), 0, |g.nodes[n].Maps()| + 1
  {
    hide AddKeyed;
    hide Fill;
    if Find(key, st).Nowhere? {
      var laid := st.(blocks := st.blocks + [Own(g, n, key)]);
      FillConserves(g, n, 0, |st.blocks|, laid);
      LaidThenCounted(st, Own(g, n, key), Fill(g, n, 0, |st.blocks|, laid).st);
      FreshResult(g, n, st, key, peak);
    } else {
      FoundResult(g, n, st, key, peak);
    }
  }

  lemma {:induction false} FillConserves(g: Iort, n: nat, j: nat, k: nat, st: State)
    requires g.Valid() && n in g.nodes && j <= |g.nodes[n].Maps()| && k < |st.blocks|
    requires st.numBlocks <= |st.blocks|
    ensures Conserved(st, Fill(g, n, j, k, st).st)
    decreases g.Rank(n), 0, |g.nodes[n].Maps()| - j
  {
    hide Fill;
    hide Add;
    if j == |g.nodes[n].Maps()| {
      FillDone(g, n, k, st);
    } else {
      FillStep(g, n, j, k, st);
      var m := g.nodes[n].Maps()[j];
      AddConserves(g, m.outputRef, st);
      var r := Add(g, m.outputRef, st);
      var st' := AfterEntry(m, k, r);
      OwedKinds(r.st, st');
      FillConserves(g, n, j + 1, k, st');
    }
  }
}
