/**
 The table builder in its own form: an arena written through a cursor, and counters. Every
 method is tied to what IovirtBuild says about the list of blocks.
 */
module IovirtTable {
  import opened Iort
  import opened IovirtLayout
  import opened IovirtBuild
  import opened IovirtArena

  class Table {
    const cells: array<Cell>
    var numBlocks: nat
    var numSmmus: nat
    var numPciRcs: nat
    var numNamedComponents: nat
    var numItsGroups: nat
    var numPmcgs: nat

    constructor (arena: array<Cell>)
      ensures cells == arena
    {
      cells := arena;
      numBlocks := 0;
      numSmmus, numPciRcs, numNamedComponents, numItsGroups, numPmcgs := 0, 0, 0, 0, 0;
    }

    ghost function Counters(): Counts
      reads this
    {
      Counts(numItsGroups, numNamedComponents, numPciRcs, numSmmus, numPmcgs)
    }

    /** The arena and the counters represent this state. */
    ghost predicate Holds(st: State)
      reads this, cells
    {
      Tiled(cells[..], st.blocks) && numBlocks == st.numBlocks && Counters() == st.counts
    }

    /** memcmp over len cells; it stops at the first difference. */
    method MemEqual(a: nat, b: nat, len: nat) returns (eq: bool)
      requires a + 3 <= cells.Length && b + 3 <= cells.Length && len >= 3
      requires cells[a + 2] == cells[b + 2] ==> a + len <= cells.Length && b + len <= cells.Length
      ensures eq <==> SameCells(cells[..], a, b, len)
    {
      var k := 0;
      while k < len && cells[a + k] == cells[b + k]
        invariant k <= len
        invariant forall l: nat :: l < k ==> EqAt(cells[..], a, b, l)
        invariant k >= 3 ==> cells[a + 2] == cells[b + 2]
      {
        assert EqAt(cells[..], a, b, k);
        k := k + 1;
      }
      eq := k == len;
      if !eq { assert !EqAt(cells[..], a, b, k); }
    }

    /**
     The comparison of one step: type first, then the memory up to the flags, and for an ITS group its
     identifiers too.
     */
    method HeaderMatches(cur: nat, block: nat, ghost key: Block, ghost b: Block) returns (same: bool)
      requires KeyAt(cells[..], cur, key)
      requires Lays(cells[..], block, b) || (block == cur && b == key)
      ensures same <==> Matches(key, b)
      ensures block + 1 < cells.Length && cells[block + 1] == Word(b.numMaps)
    {
      same := false;
      var cmpSize := 3;
      if cells[cur] == cells[block] {
        CodeInjective(key.kind, b.kind);
        if cells[block].w == Code(ItsGroup) {
          CodeInjective(b.kind, ItsGroup);
          cmpSize := cmpSize + cells[block + 2].d.itsCount + 1;
        }
        assert cmpSize == CmpSize(b);
        same := MemEqual(cur, block, cmpSize);
        if Lays(cells[..], block, b) {
          CompareDecides(cells[..], cur, key, block, b);
        } else {
          assert SameCells(cells[..], cur, cur, cmpSize);
        }
      }
    }

    /** One step of the walk, at block i or at the key's own copy after the last block. */
    method Visit(cur: nat, block: nat, ghost i: nat, ghost key: Block, ghost st: State) returns (same: bool, next: nat)
      requires Tiled(cells[..], st.blocks) && cur == End(st.blocks) && KeyAt(cells[..], cur, key)
      requires i <= |st.blocks| && block == Off(st.blocks, i)
      ensures same <==> (i < |st.blocks| ==> Matches(key, st.blocks[i]))
      ensures !same ==> next == Off(st.blocks, i + 1)
    {
      ghost var b := if i < |st.blocks| then st.blocks[i] else key;
      assert i < |st.blocks| ==> Lays(cells[..], block, b);
      same := HeaderMatches(cur, block, key, b);
      next := block + HDR + 4 * cells[block + 1].w;
    }

    /** find_block: offset of the first counted block whose header matches the key at the cursor; 0 if there is none. */
    method FindBlock(cur: nat, ghost key: Block, ghost st: State) returns (offset: nat)
      requires Tiled(cells[..], st.blocks) && cur == End(st.blocks) && KeyAt(cells[..], cur, key)
      requires numBlocks == st.numBlocks
      ensures offset == FoundOffset(Find(key, st), st)
    {
      var block := FIRST;
      var i := 0;
      while i < numBlocks
        invariant i <= numBlocks && i <= |st.blocks| && block == Off(st.blocks, i)
        invariant Search(key, st.blocks, i) == -1
      {
        var same, next := Visit(cur, block, i, key, st);
        if same {
          FindAt(key, st, i);
          return block;
        }
        block := next;
        i := i + 1;
      }
      offset := 0;
    }

    /** smmu_ctx_int_distinct: no two context interrupts share their low 32 bits. */
    static method SmmuCtxIntDistinct(ctxInts: seq<nat>) returns (distinct: bool)
      ensures distinct <==> CtxDistinct(ctxInts)
    {
      var i := 0;
      while i < |ctxInts| - 1
        invariant 0 <= i && (|ctxInts| > 0 ==> i <= |ctxInts| - 1)
        invariant forall a, b :: 0 <= a < i && a < b < |ctxInts| ==> ctxInts[a] % TWO32 != ctxInts[b] % TWO32
      {
        var j := i + 1;
        while j < |ctxInts|
          invariant i < j <= |ctxInts|
          invariant forall b :: i < b < j ==> ctxInts[i] % TWO32 != ctxInts[b] % TWO32
        {
          if ctxInts[i] % TWO32 == ctxInts[j] % TWO32 { return false; }
          j := j + 1;
        }
        i := i + 1;
      }
      distinct := true;
    }

    /** Writes the header fields that come straight from the node, and an ITS group's identifiers. */
    method WriteHeader(node: Node, cur: nat)
      requires cur + Scratch(Head(node, 0)) <= cells.Length
      modifies cells
      ensures HeadAt(cells[..], cur, Head(node, if node.PmcgNode? then node.nodeRef else 0))
      ensures IdsAt(cells[..], cur, Head(node, 0).ids)
      ensures forall i :: 0 <= i < cur && i < cells.Length ==> cells[i] == old(cells[i])
    {
      cells[cur + 2] := Data(ZeroData);
      cells[cur] := Word(Code(KindOf(node)));
      cells[cur + 1] := Word(|node.Maps()|);
      match node
      case ItsNode(ids) =>
        cells[cur + 2] := Data(ItsData(|ids|));
        var k := 0;
        while k < |ids|
          invariant k <= |ids|
          invariant cells[cur] == Word(Code(ItsGroup)) && cells[cur + 2] == Data(ItsData(|ids|))
          invariant forall l :: 0 <= l < k ==> cells[cur + HDR + l] == Word(ids[l])
          invariant forall i :: 0 <= i < cur && i < cells.Length ==> cells[i] == old(cells[i])
        {
          cells[cur + HDR + k] := Word(ids[k]);
          k := k + 1;
        }
        cells[cur + 1] := Word((|ids| + 3) / 4);
      case NamedNode(name, _) => cells[cur + 2] := Data(NameData(Name16(name)));
      case RcNode(segment, cca, ats, _) => cells[cur + 2] := Data(RcData(segment, cca, ats, 0));
      case SmmuNode(base, _, _) => cells[cur + 2] := Data(SmmuData(2, base));
      case SmmuV3Node(base, _) => cells[cur + 2] := Data(SmmuData(3, base));
      case PmcgNode(pageBase, gsiv, nodeRef, _) => cells[cur + 2] := Data(PmcgData(pageBase, gsiv, nodeRef));
      case BadNode(_) =>
    }

    /**
     iovirt_add_block. `next` is where the next block goes: past the blocks added, or unchanged
     when the node is a duplicate. Nothing before the cursor is touched.
     */
    method AddBlock(g: Iort, n: nat, cur: nat, ghost st: State) returns (ref: nat, next: nat)
      requires g.Valid() && n in g.nodes
      requires Holds(st) && cur == End(st.blocks) && Add(g, n, st).peak <= cells.Length
      modifies this, cells
      ensures Holds(Add(g, n, st).st) && next == End(Add(g, n, st).st.blocks) && ref == Add(g, n, st).ref
      ensures forall i :: 0 <= i < cur && i < cells.Length ==> cells[i] == old(cells[i])
      ensures !g.nodes[n].BadNode? ==> HeadAt(cells[..], ref, Add(g, n, st).seen)
      decreases g.Rank(n), 1
    {
      var node := g.nodes[n];
      ghost var before := cells[..];
      assert g.ValidNode(n);
      WriteHeader(node, cur);
      TiledFrame(before, cells[..], st.blocks);
      if node.BadNode? {
        return INVALID_REF, cur;
      }
      if node.PmcgNode? {
        var off := AddPmcgNode(g, n, cur, st);
        ghost var t := AddPmcgTarget(g, n, st);
        ref, next := LookUp(g, n, cur, st.(numBlocks := t.st.numBlocks, counts := t.st.counts), Head(node, off),
          t.peak);
      } else {
        ref, next := LookUp(g, n, cur, st, Head(node, 0), 0);
      }
    }

    /** Lines 282-343: clear the flags, reuse a matching block or make a new one. */
    method LookUp(g: Iort, n: nat, cur: nat, ghost st: State, ghost key: Block, ghost peak: nat)
        returns (ref: nat, next: nat)
      requires g.Valid() && n in g.nodes && !g.nodes[n].BadNode?
      requires Holds(st) && cur == End(st.blocks)
      requires HeadAt(cells[..], cur, key) && IdsAt(cells[..], cur, key.ids) && key.WellFormed() &&
               key.flags == NO_FLAGS
      requires key.kind == KindOf(g.nodes[n]) && key.maps == [] && key.numMaps == NumMaps(g.nodes[n])
      requires AddKeyed(g, n, st, key, peak).peak <= cells.Length
      modifies this, cells
      ensures var r := AddKeyed(g, n, st, key, peak);
              Holds(r.st) && next == End(r.st.blocks) && ref == r.ref && HeadAt(cells[..], ref, r.seen)
      ensures forall i :: 0 <= i < cur && i < cells.Length ==> cells[i] == old(cells[i])
      decreases g.Rank(n), 0, 3
    {
      ghost var pre := cells[..];
      cells[cur + 3] := FlagBits(NO_FLAGS);
      TiledFrame(pre, cells[..], st.blocks);
      assert KeyAt(cells[..], cur, key);
      var found := FindBlock(cur, key, st);
      if found != 0 {
        assert Find(key, st).InTable? ==> Lays(cells[..], found, st.blocks[Find(key, st).index]);
        return found, cur;
      }
      next := LayDown(g, n, cur, st, key, peak);
      ref := cur;
    }

    /** The PMCG case: the target is entered right after the PMCG's header, and its offset recorded in node_ref. */
    method AddPmcgNode(g: Iort, n: nat, cur: nat, ghost st: State) returns (off: nat)
      requires g.Valid() && n in g.nodes && g.nodes[n].PmcgNode?
      requires Holds(st) && cur == End(st.blocks) && AddPmcgTarget(g, n, st).peak <= cells.Length
      requires HeadAt(cells[..], cur, PmcgScratch(g.nodes[n]))
      modifies this, cells
      ensures Tiled(cells[..], st.blocks)
      ensures numBlocks == AddPmcgTarget(g, n, st).st.numBlocks && Counters() == AddPmcgTarget(g, n, st).st.counts
      ensures off == AddPmcgTarget(g, n, st).ref
      ensures HeadAt(cells[..], cur, Head(g.nodes[n], off))
      ensures forall i :: 0 <= i < cur && i < cells.Length ==> cells[i] == old(cells[i])
      decreases g.Rank(n), 0, 0
    {
      hide Add;
      hide Tiled;
      var node := g.nodes[n];
      ghost var more := st.blocks + [PmcgScratch(node)];
      PushScratch(cells[..], g, n, st);
      var nextBlock := cur + HDR + 4 * cells[cur + 1].w;
      var ignored;
      off, ignored := AddBlock(g, node.nodeRef, nextBlock, st.(blocks := more));
      ScratchStays(cells[..], AddPmcgTarget(g, n, st).st.blocks, st.blocks, PmcgScratch(node));
      StoreNodeRef(cur, off, node, st.blocks);
    }

    method StoreNodeRef(cur: nat, off: nat, ghost node: Node, ghost blocks: seq<Block>)
      requires Tiled(cells[..], blocks) && cur == End(blocks) && node.PmcgNode? &&
               HeadAt(cells[..], cur, PmcgScratch(node))
      modifies cells
      ensures Tiled(cells[..], blocks) && HeadAt(cells[..], cur, Head(node, off))
      ensures forall i :: 0 <= i < cur && i < cells.Length ==> cells[i] == old(cells[i])
    {
      ghost var pre := cells[..];
      cells[cur + 2] := Data(cells[cur + 2].d.(nodeRef := off));
      TiledFrame(pre, cells[..], blocks);
    }

    /** A header that was not found becomes a block: flags, then one entry per mapping, then the counters. */
    method LayDown(g: Iort, n: nat, cur: nat, ghost st: State, ghost key: Block, ghost peak: nat) returns (next: nat)
      requires g.Valid() && n in g.nodes && !g.nodes[n].BadNode?
      requires Holds(st) && cur == End(st.blocks) && KeyAt(cells[..], cur, key)
      requires key.kind == KindOf(g.nodes[n]) && key.maps == [] && key.numMaps == NumMaps(g.nodes[n]) &&
               key.flags == NO_FLAGS
      requires Find(key, st).Nowhere? && AddKeyed(g, n, st, key, peak).peak <= cells.Length
      modifies this, cells
      ensures var r := AddKeyed(g, n, st, key, peak);
              Holds(r.st) && next == End(r.st.blocks) && HeadAt(cells[..], cur, r.seen)
      ensures forall i :: 0 <= i < cur && i < cells.Length ==> cells[i] == old(cells[i])
      decreases g.Rank(n), 0, 2
    {
      hide Fill;
      ghost var laid := st.(blocks := st.blocks + [Own(g, n, key)]);
      FreshResult(g, n, st, key, peak);
      next := PlaceHeader(g, n, cur, st, key);
      if !g.nodes[n].ItsNode? {
        next := FillMaps(g, n, cur, next, |st.blocks|, laid);
      } else {
        FillDone(g, n, |st.blocks|, laid);
      }
      ghost var f := Fill(g, n, 0, |st.blocks|, laid).st;
      assert Lays(cells[..], Off(f.blocks, |st.blocks|), f.blocks[|st.blocks|]);
      CountBlock(g.nodes[n]);
    }

    /** The header stands, with the context interrupt flag of an SMMUv1/v2; the next block goes past its entries. */
    method PlaceHeader(g: Iort, n: nat, cur: nat, ghost st: State, ghost key: Block) returns (next: nat)
      requires g.Valid() && n in g.nodes
      requires Holds(st) && cur == End(st.blocks) && KeyAt(cells[..], cur, key) && cur + key.Size() <= cells.Length
      requires key.kind == KindOf(g.nodes[n]) && key.maps == [] && key.flags == NO_FLAGS
      modifies cells
      ensures Holds(st.(blocks := st.blocks + [Own(g, n, key)])) && next == End(st.blocks + [Own(g, n, key)])
      ensures Off(st.blocks + [Own(g, n, key)], |st.blocks|) == cur
      ensures forall i :: 0 <= i < cur && i < cells.Length ==> cells[i] == old(cells[i])
    {
      ghost var pre := cells[..];
      var node := g.nodes[n];
      if node.SmmuNode? {
        var distinct := SmmuCtxIntDistinct(node.ctxInts);
        if !distinct { cells[cur + 3] := FlagBits(NO_FLAGS.(ctxIntClash := true)); }
      }
      TiledFrame(pre, cells[..], st.blocks);
      assert Lays(cells[..], cur, Own(g, n, key));
      TiledPush(cells[..], st.blocks, Own(g, n, key));
      OffSame(st.blocks, st.blocks + [Own(g, n, key)], |st.blocks|);
      next := cur + HDR + 4 * cells[cur + 1].w;
    }

    /** The general counter and the one of the node's type. */
    method CountBlock(node: Node)
      requires !node.BadNode?
      modifies this
      ensures numBlocks == old(numBlocks) + 1 && Counters() == old(Counters()).Bump(KindOf(node))
    {
      numBlocks := numBlocks + 1;
      match node
      case ItsNode(_) => numItsGroups := numItsGroups + 1;
      case NamedNode(_, _) => numNamedComponents := numNamedComponents + 1;
      case RcNode(_, _, _, _) => numPciRcs := numPciRcs + 1;
      case SmmuNode(_, _, _) => numSmmus := numSmmus + 1;
      case SmmuV3Node(_, _) => numSmmus := numSmmus + 1;
      case PmcgNode(_, _, _, _) => numPmcgs := numPmcgs + 1;
    }

    /** The mapping loop: each target is entered at the moving end of the table and its offset stored in the entry. */
    method FillMaps(g: Iort, n: nat, cur: nat, start: nat, ghost k: nat, ghost laid: State) returns (next: nat)
      requires g.Valid() && n in g.nodes && !g.nodes[n].BadNode? && !g.nodes[n].ItsNode?
      requires Holds(laid) && k + 1 == |laid.blocks| && cur == Off(laid.blocks, k) && start == End(laid.blocks)
      requires laid.blocks[k].maps == [] && laid.blocks[k].kind == KindOf(g.nodes[n]) &&
               laid.blocks[k].numMaps == |g.nodes[n].Maps()|
      requires Fill(g, n, 0, k, laid).peak <= cells.Length
      modifies this, cells
      ensures Holds(Fill(g, n, 0, k, laid).st) && next == End(Fill(g, n, 0, k, laid).st.blocks)
      ensures forall i :: 0 <= i < cur && i < cells.Length ==> cells[i] == old(cells[i])
      decreases g.Rank(n), 0, 1
    {
      hide Add;
      hide Fill;
      var node := g.nodes[n];
      ghost var st := laid;
      ghost var all := Fill(g, n, 0, k, laid);
      next := start;
      var i := 0;
      while i < |node.Maps()|
        invariant i <= |node.Maps()| && k < |st.blocks|
        invariant Holds(st) && next == End(st.blocks) && cur == Off(st.blocks, k)
        invariant Fill(g, n, i, k, st).st == all.st && Fill(g, n, i, k, st).peak <= all.peak
        invariant |st.blocks[k].maps| == i && st.blocks[k].numMaps == |node.Maps()| && st.blocks[k].kind == KindOf(node)
        invariant forall l :: 0 <= l < cur && l < cells.Length ==> cells[l] == old(cells[l])
      {
        var m := node.Maps()[i];
        FillStep(g, n, i, k, st);
        ghost var r := Add(g, m.outputRef, st);
        next := FillEntry(g, m, cur, next, i, k, st);
        st := AfterEntry(m, k, r);
        i := i + 1;
      }
      FillDone(g, n, k, st);
    }

    /** One entry: the copied fields, the recursive call, the offset it returned, and the SMMU base behind an RC. */
    method FillEntry(g: Iort, m: Mapping, cur: nat, start: nat, i: nat, ghost k: nat, ghost st: State)
        returns (next: nat)
      requires g.Valid() && m.outputRef in g.nodes && !g.nodes[m.outputRef].BadNode?
      requires Holds(st) && start == End(st.blocks) && k < |st.blocks| && cur == Off(st.blocks, k)
      requires |st.blocks[k].maps| == i < st.blocks[k].numMaps && st.blocks[k].kind != ItsGroup
      requires Add(g, m.outputRef, st).peak <= cells.Length
      modifies this, cells
      ensures var st' := AfterEntry(m, k, Add(g, m.outputRef, st));
              Holds(st') && next == End(st'.blocks)
      ensures forall l :: 0 <= l < cur && l < cells.Length ==> cells[l] == old(cells[l])
      decreases g.Rank(m.outputRef), 2
    {
      hide Add;
      ghost var r := Add(g, m.outputRef, st);
      var dataMap := cur + HDR + 4 * i;
      CopyFields(m, cur, dataMap, k, st);
      ghost var c0 := cells[..];
      OffGrows(st.blocks, k, |st.blocks|);
      var off;
      off, next := AddBlock(g, m.outputRef, start, st);
      assert forall l :: dataMap <= l < dataMap + 3 ==> cells[l] == c0[l];
      assert r.st.blocks[..|st.blocks|][k] == st.blocks[k];
      OffSame(st.blocks, r.st.blocks, k);
      StoreRef(m, cur, dataMap, off, k, r);
    }

    method CopyFields(m: Mapping, cur: nat, dataMap: nat, ghost k: nat, ghost st: State)
      requires Holds(st) && k < |st.blocks| && cur == Off(st.blocks, k)
      requires |st.blocks[k].maps| < st.blocks[k].numMaps && st.blocks[k].kind != ItsGroup
      requires dataMap == cur + HDR + 4 * |st.blocks[k].maps|
      modifies cells
      ensures Holds(st) && dataMap + 4 <= cells.Length
      ensures cells[dataMap] == Word(m.inputBase) && cells[dataMap + 1] == Word(m.idCount) &&
              cells[dataMap + 2] == Word(m.outputBase)
      ensures forall l :: 0 <= l < cur && l < cells.Length ==> cells[l] == old(cells[l])
    {
      ghost var c0 := cells[..];
      assert Lays(c0, Off(st.blocks, k), st.blocks[k]);
      cells[dataMap] := Word(m.inputBase);
      cells[dataMap + 1] := Word(m.idCount);
      cells[dataMap + 2] := Word(m.outputBase);
      EntryFree(c0, cells[..], cur, st.blocks[k]);
      TiledUpdate(c0, cells[..], st.blocks, k, st.blocks[k]);
      assert st.blocks[k := st.blocks[k]] == st.blocks;
    }

    method StoreRef(m: Mapping, cur: nat, dataMap: nat, off: nat, ghost k: nat, ghost r: Added)
      requires Holds(r.st) && k < |r.st.blocks| && cur == Off(r.st.blocks, k) && off == r.ref
      requires |r.st.blocks[k].maps| < r.st.blocks[k].numMaps && r.st.blocks[k].kind != ItsGroup
      requires dataMap == cur + HDR + 4 * |r.st.blocks[k].maps| && dataMap + 4 <= cells.Length
      requires cells[dataMap] == Word(m.inputBase) && cells[dataMap + 1] == Word(m.idCount) &&
               cells[dataMap + 2] == Word(m.outputBase)
      requires HeadAt(cells[..], off, r.seen)
      modifies cells
      ensures var b := r.st.blocks[k := WithEntry(r.st.blocks[k], m, r.ref, r.seen)];
              Holds(r.st.(blocks := b)) && End(b) == End(r.st.blocks)
      ensures forall l :: 0 <= l < cur && l < cells.Length ==> cells[l] == old(cells[l])
    {
      ghost var c1 := cells[..];
      ghost var own := r.st.blocks[k];
      assert Lays(c1, Off(r.st.blocks, k), own);
      var kind, data := cells[off].w, cells[off + 2].d;
      assert kind == Code(r.seen.kind) && data == r.seen.data;
      cells[dataMap + 3] := Word(off);
      var smmuBase := 0;
      if (kind == Code(Smmu) || kind == Code(SmmuV3)) && data.SmmuData? {
        smmuBase := data.base;
      }
      assert smmuBase == SmmuBaseOf(r.seen);
      if cells[cur].w == Code(RootComplex) {
        CodeInjective(own.kind, RootComplex);
        cells[cur + 2] := Data(cells[cur + 2].d.(smmuBase := smmuBase));
      }
      ghost var b := WithEntry(own, m, r.ref, r.seen);
      EntryStored(c1, cells[..], cur, own, m, r.ref, r.seen);
      TiledUpdate(c1, cells[..], r.st.blocks, k, b);
    }
  }

  /** A PMCG's header at the cursor, with room for its entries, is one more block for its target to go behind. */
  lemma {:induction false} PushScratch(c: seq<Cell>, g: Iort, n: nat, st: State)
    requires g.Valid() && n in g.nodes && g.nodes[n].PmcgNode?
    requires Tiled(c, st.blocks) && HeadAt(c, End(st.blocks), PmcgScratch(g.nodes[n]))
    requires AddPmcgTarget(g, n, st).peak <= |c|
    ensures var more := st.blocks + [PmcgScratch(g.nodes[n])];
            && Tiled(c, more) && End(more) == End(st.blocks) + PmcgScratch(g.nodes[n]).Size()
            && g.ValidRef(n, g.nodes[n].nodeRef)
            && AddPmcgTarget(g, n, st) == Add(g, g.nodes[n].nodeRef, st.(blocks := more))
  {
    var scratch := PmcgScratch(g.nodes[n]);
    TargetLookup(g, n, st);
    OffSame(st.blocks, st.blocks + [scratch], |st.blocks|);
    assert Lays(c, End(st.blocks), scratch);
    TiledPush(c, st.blocks, scratch);
  }

  /**
   The blocks before a header written at the cursor, and the header itself, are still there after more blocks
   followed.
   */
  lemma {:induction false} ScratchStays(c: seq<Cell>, all: seq<Block>, blocks: seq<Block>, scratch: Block)
    requires Tiled(c, all) && |blocks| < |all| && all[..|blocks| + 1] == blocks + [scratch]
    ensures Tiled(c, blocks) && HeadAt(c, End(blocks), scratch)
  {
    var more := blocks + [scratch];
    TiledTake(c, all, |more|);
    assert Lays(c, Off(more, |blocks|), more[|blocks|]);
    TiledTake(c, more, |blocks|);
    assert more[..|blocks|] == blocks;
  }

  /** Writing the first words of the next entry disturbs nothing that is filled in. */
  lemma {:induction false} EntryFree(c: seq<Cell>, d: seq<Cell>, o: nat, b: Block)
    requires Lays(c, o, b) && |b.maps| < b.numMaps && b.kind != ItsGroup && |c| == |d|
    requires forall i :: 0 <= i < |c| && !(o + HDR + 4 * |b.maps| <= i < o + b.Size()) ==> c[i] == d[i]
    ensures Lays(d, o, b)
  {
    forall j | 0 <= j < |b.maps| ensures EntryAt(d, o + HDR + 4 * j, b.maps[j]) {
      assert EntryAt(c, o + HDR + 4 * j, b.maps[j]);
    }
  }

  /** With the returned offset in its last word the entry is complete, and the data field carries the SMMU base. */
  lemma {:induction false} EntryStored(c: seq<Cell>, d: seq<Cell>, o: nat, b: Block, m: Mapping, ref: nat, seen: Block)
    requires Lays(c, o, b) && |b.maps| < b.numMaps && b.kind != ItsGroup && |c| == |d|
    requires var a := o + HDR + 4 * |b.maps|;
             && c[a] == Word(m.inputBase) && c[a + 1] == Word(m.idCount) && c[a + 2] == Word(m.outputBase)
             && d[a + 3] == Word(ref) && d[o + 2] == Data(WithEntry(b, m, ref, seen).data)
             && forall i :: 0 <= i < |c| && i != a + 3 && i != o + 2 ==> c[i] == d[i]
    ensures Lays(d, o, WithEntry(b, m, ref, seen))
  {
    var e := WithEntry(b, m, ref, seen);
    forall j | 0 <= j < |e.maps| ensures EntryAt(d, o + HDR + 4 * j, e.maps[j]) {
      if j < |b.maps| { assert EntryAt(c, o + HDR + 4 * j, b.maps[j]); }
    }
  }

  /** Stopping at block i, or at the key itself after the last block, is what Find says. */
  lemma {:induction false} FindAt(key: Block, st: State, i: nat)
    requires i < st.numBlocks && i <= |st.blocks| && Search(key, st.blocks, i) == -1
    requires i < |st.blocks| ==> Matches(key, st.blocks[i])
    ensures Find(key, st) == if i < |st.blocks| then InTable(i) else Itself
  {
    if i < |st.blocks| { SearchStops(key, st.blocks, i, Visible(st)); }
  }
}
