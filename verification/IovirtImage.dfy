/**
 The table is a faithful image of the graph. `owner` says from which IORT node each block was made;
 `pend` is the set of blocks whose mappings are still being filled in. Each call adds exactly the
 blocks that the walk on nodes lists.
 */
module IovirtImage {
  import opened Iort
  import opened IovirtLayout
  import opened IovirtBuild
  import opened IovirtCounts
  import opened IovirtNames

  /**
   The header fields of b are those of the node; smmu_base and node_ref are left open. An ITS group has as many
   data maps, of four words each, as its identifiers need, at least one of them used in the last.
   */
  ghost predicate HeadOf(node: Node, b: Block) {
    match node
    case ItsNode(ids) =>
      b.kind == ItsGroup && b.data == ItsData(|ids|) && b.ids == ids && 4 * b.numMaps - 4 < |ids| <= 4 * b.numMaps
    case NamedNode(name, maps) =>
      && b.kind == NamedComponent && b.data.NameData? && |b.data.name| == 16 && b.ids == [] && b.numMaps == |maps|
      && forall c :: 0 <= c < 16 ==> b.data.name[c] == Padded(name, c)
    case RcNode(segment, cca, ats, maps) =>
      && b.kind == RootComplex && b.data.RcData? && b.ids == [] && b.numMaps == |maps|
      && b.data.segment == segment && b.data.cca == cca && b.data.ats == ats
    case SmmuNode(base, _, maps) =>
      b.kind == Smmu && b.data == SmmuData(2, base) && b.ids == [] && b.numMaps == |maps|
    case SmmuV3Node(base, maps) =>
      b.kind == SmmuV3 && b.data == SmmuData(3, base) && b.ids == [] && b.numMaps == |maps|
    case PmcgNode(pageBase, gsiv, _, maps) =>
      && b.kind == Pmcg && b.data.PmcgData? && b.ids == [] && b.numMaps == |maps|
      && b.data.pageBase == pageBase && b.data.gsiv == gsiv
    case BadNode(_) => false
  }

  /** `ref` is the offset of a block that stands for `target`. */
  ghost predicate Linked(g: Iort, blocks: seq<Block>, owner: seq<nat>, ref: nat, target: nat)
    requires |owner| == |blocks|
  {
    exists x: nat {:trigger LiesAt(blocks, x, ref)} :: LiesAt(blocks, x, ref) && Stands(g, owner[x], target)
  }

  /** `ref` is the offset of the first block that lookups take for `target`. */
  ghost predicate FirstLinked(g: Iort, blocks: seq<Block>, owner: seq<nat>, ref: nat, target: nat)
    requires |owner| == |blocks|
  {
    exists x: nat {:trigger LiesAt(blocks, x, ref)} ::
      LiesAt(blocks, x, ref) && LookAlike(g, owner[x], target) && NoneBefore(g, owner, x, target)
  }

  lemma {:induction false} FirstIsLinked(g: Iort, blocks: seq<Block>, owner: seq<nat>, ref: nat, target: nat)
    requires |owner| == |blocks|
    ensures FirstLinked(g, blocks, owner, ref, target) ==> Linked(g, blocks, owner, ref, target)
  {
    if x: nat :| LiesAt(blocks, x, ref) && LookAlike(g, owner[x], target) { assert Stands(g, owner[x], target); }
  }

  ghost predicate EntryOf(g: Iort, blocks: seq<Block>, owner: seq<nat>, e: Entry, m: Mapping)
    requires |owner| == |blocks|
  {
    && e.inputBase == m.inputBase && e.idCount == m.idCount && e.outputBase == m.outputBase
    && Linked(g, blocks, owner, e.outputRef, m.outputRef)
  }

  ghost predicate FilledTo(g: Iort, blocks: seq<Block>, owner: seq<nat>, i: nat, j: nat)
    requires i < |blocks| == |owner| && j <= |g.At(owner[i]).Maps()|
  {
    var node := g.At(owner[i]);
    && |blocks[i].maps| == j
    && (forall l {:trigger blocks[i].maps[l]} :: 0 <= l < j ==>
      EntryOf(g, blocks, owner, blocks[i].maps[l], node.Maps()[l]))
    && (blocks[i].data.RcData? ==> blocks[i].data.smmuBase == SmmuBehind(g, node, j))
  }

  /** Block i is complete and says exactly what its node says, references turned into block offsets. */
  ghost predicate Faithful(g: Iort, blocks: seq<Block>, owner: seq<nat>, i: nat)
    requires i < |blocks| == |owner|
  {
    FilledTo(g, blocks, owner, i, |g.At(owner[i]).Maps()|)
  }

  ghost predicate HeaderFaithful(g: Iort, blocks: seq<Block>, owner: seq<nat>, i: nat)
    requires i < |blocks| == |owner|
  {
    var node := g.At(owner[i]);
    && owner[i] in g.nodes && !node.BadNode? && HeadOf(node, blocks[i])
    && blocks[i].flags == NO_FLAGS.(ctxIntClash := CtxClash(node))
    && (node.PmcgNode? ==>
          blocks[i].data.PmcgData? && FirstLinked(g, blocks, owner, blocks[i].data.nodeRef, node.nodeRef))
  }

  ghost predicate Image(g: Iort, blocks: seq<Block>, owner: seq<nat>, pend: set<nat>) {
    && |owner| == |blocks|
    && (forall i {:trigger HeaderFaithful(g, blocks, owner, i)} :: 0 <= i < |blocks| ==>
      HeaderFaithful(g, blocks, owner, i))
    && (forall i {:trigger Faithful(g, blocks, owner, i)} :: 0 <= i < |blocks| && i !in pend ==>
      Faithful(g, blocks, owner, i))
  }

  // ------------------------------------------------------------------ frames

  /** b extends a: every block of a keeps its place and its node. */
  ghost predicate Extends(a: seq<Block>, oa: seq<nat>, b: seq<Block>, ob: seq<nat>) {
    && |oa| == |a| <= |b| == |ob|
    && SameShape(a, b, |a|)
    && forall i :: 0 <= i < |oa| ==> oa[i] == ob[i]
  }

  lemma {:induction false} LinkedFrame(g: Iort, a: seq<Block>, oa: seq<nat>, b: seq<Block>, ob: seq<nat>, ref: nat,
      target: nat)
    requires Extends(a, oa, b, ob)
    ensures Linked(g, a, oa, ref, target) ==> Linked(g, b, ob, ref, target)
    ensures FirstLinked(g, a, oa, ref, target) ==> FirstLinked(g, b, ob, ref, target)
  {
    if Linked(g, a, oa, ref, target) {
      var x: nat :| LiesAt(a, x, ref) && Stands(g, oa[x], target);
      OffSame(a, b, x);
      assert LiesAt(b, x, ref);
    }
    if FirstLinked(g, a, oa, ref, target) {
      var x: nat :| LiesAt(a, x, ref) && LookAlike(g, oa[x], target) && NoneBefore(g, oa, x, target);
      OffSame(a, b, x);
      assert LiesAt(b, x, ref) && NoneBefore(g, ob, x, target);
    }
  }

  lemma {:induction false} BlockFrame(g: Iort, a: seq<Block>, oa: seq<nat>, b: seq<Block>, ob: seq<nat>, i: nat)
    requires Extends(a, oa, b, ob) && i < |a| && a[i] == b[i] && HeaderFaithful(g, a, oa, i)
    ensures HeaderFaithful(g, b, ob, i)
    ensures Faithful(g, a, oa, i) ==> Faithful(g, b, ob, i)
  {
    var node := g.At(oa[i]);
    if node.PmcgNode? { LinkedFrame(g, a, oa, b, ob, a[i].data.nodeRef, node.nodeRef); }
    if Faithful(g, a, oa, i) {
      forall l | 0 <= l < |node.Maps()| ensures EntryOf(g, b, ob, b[i].maps[l], node.Maps()[l]) {
        assert EntryOf(g, a, oa, a[i].maps[l], node.Maps()[l]);
        LinkedFrame(g, a, oa, b, ob, a[i].maps[l].outputRef, node.Maps()[l].outputRef);
      }
    }
  }

  // ------------------------------------------------------------------ what lookups find

  /** Whatever is still being filled was begun on the way to n, at a rank of at least r. */
  ghost predicate Above(g: Iort, owner: seq<nat>, pend: set<nat>, n: nat, r: nat)
    requires g.Valid()
  {
    forall p <- pend :: p < |owner| && owner[p] in g.nodes && g.Reaches(owner[p], n) && g.Rank(owner[p]) >= r
  }

  /** The key that node n is looked up under. */
  ghost predicate KeyFor(g: Iort, blocks: seq<Block>, owner: seq<nat>, n: nat, key: Block)
    requires |owner| == |blocks|
  {
    if g.At(n).PmcgNode? then
      exists ref :: key == Head(g.At(n), ref) && FirstLinked(g, blocks, owner, ref, g.At(n).nodeRef)
    else key == Head(g.At(n), 0)
  }

  /** A block with the header of node a that matches the header of node b: the nodes have matching headers. */
  lemma {:induction false} HeadsMatch(a: Node, b: Node, ref: nat, block: Block)
    requires HeadOf(a, block) && Matches(Head(b, ref), block) && !b.BadNode?
    ensures SameHead(a, b)
    ensures b.PmcgNode? ==> block.data == PmcgData(b.pageBase, b.gsiv, ref)
    ensures b.RcNode? ==> block.data.RcData? && block.data.smmuBase == 0
  {}

  lemma {:induction false} HeadsAgree(a: Node, b: Node, ref: nat, block: Block)
    requires HeadOf(a, block) && SameHead(a, b) && block.flags.Flags?
    requires a.ItsNode? ==> block.flags == NO_FLAGS
    requires a.RcNode? ==> block.data.RcData? && block.data.smmuBase == 0
    requires a.PmcgNode? ==> block.data.PmcgData? && block.data.nodeRef == ref
    ensures Matches(Head(b, ref), block)
  {}

  /** The first block that lookups take for a node depends only on the node's key. */
  lemma {:induction false} FirstUnique(g: Iort, blocks: seq<Block>, owner: seq<nat>, a: nat, s: nat, b: nat, t: nat)
    requires |owner| == |blocks| && FirstLinked(g, blocks, owner, a, s) && FirstLinked(g, blocks, owner, b, t)
    ensures a == b ==> SameKey(g, s, t)
    ensures SameKey(g, s, t) ==> a == b
  {
    var x: nat :| LiesAt(blocks, x, a) && LookAlike(g, owner[x], s) && NoneBefore(g, owner, x, s);
    var y: nat :| LiesAt(blocks, y, b) && LookAlike(g, owner[y], t) && NoneBefore(g, owner, y, t);
    LookAlikeKey(g, owner[x], s, t);
    LookAlikeKey(g, owner[y], s, t);
    hide LookAlike, SameKey;
    if a == b { OffInjective(blocks, x, y); }
  }

  /** A block that matches the key of node n was made from a node with the same key. */
  lemma {:induction false} MatchIsSame(g: Iort, n: nat, key: Block, blocks: seq<Block>, owner: seq<nat>,
      pend: set<nat>, i: nat)
    requires g.Valid() && n in g.nodes && !g.nodes[n].BadNode?
    requires Image(g, blocks, owner, pend) && KeyFor(g, blocks, owner, n, key)
    requires i < |blocks| && Matches(key, blocks[i])
    ensures SameKey(g, owner[i], n)
    ensures g.nodes[n].RcNode? ==> blocks[i].data.RcData? && blocks[i].data.smmuBase == 0
  {
    assert HeaderFaithful(g, blocks, owner, i);
    var m, node := g.At(owner[i]), g.nodes[n];
    if node.PmcgNode? {
      var ref :| key == Head(node, ref) && FirstLinked(g, blocks, owner, ref, node.nodeRef);
      HeadsMatch(m, node, ref, blocks[i]);
      FirstUnique(g, blocks, owner, blocks[i].data.nodeRef, m.nodeRef, ref, node.nodeRef);
    } else {
      HeadsMatch(m, node, 0, blocks[i]);
    }
  }

  /**
   And if it is finished, or no root complex reaches one of its own key, lookups take it for n whenever they
   see it.
   */
  lemma {:induction false} MatchLooksAlike(g: Iort, n: nat, key: Block, blocks: seq<Block>, owner: seq<nat>,
      pend: set<nat>, i: nat)
    requires g.Valid() && (RcsApart(g) || pend == {}) && n in g.nodes && !g.nodes[n].BadNode?
    requires Image(g, blocks, owner, pend) && KeyFor(g, blocks, owner, n, key) &&
             Above(g, owner, pend, n, g.Rank(n) + 1)
    requires i < |blocks| && Matches(key, blocks[i])
    ensures LookAlike(g, owner[i], n)
  {
    MatchIsSame(g, n, key, blocks, owner, pend, i);
    assert HeaderFaithful(g, blocks, owner, i);
    if g.nodes[n].RcNode? {
      assert i !in pend;
      assert Faithful(g, blocks, owner, i);
    }
  }

  /** Conversely a node that looks alike has a block that matches. */
  lemma {:induction false} LookAlikeMatches(g: Iort, n: nat, key: Block, blocks: seq<Block>, owner: seq<nat>,
      pend: set<nat>, i: nat)
    requires g.Valid() && (RcsApart(g) || pend == {}) && n in g.nodes && !g.nodes[n].BadNode?
    requires Image(g, blocks, owner, pend) && KeyFor(g, blocks, owner, n, key) &&
             Above(g, owner, pend, n, g.Rank(n) + 1)
    requires i < |blocks| && LookAlike(g, owner[i], n)
    ensures Matches(key, blocks[i])
  {
    assert HeaderFaithful(g, blocks, owner, i);
    var m, node := g.At(owner[i]), g.nodes[n];
    if node.RcNode? {
      assert i !in pend;
      assert Faithful(g, blocks, owner, i);
    }
    if node.PmcgNode? {
      var ref :| key == Head(node, ref) && FirstLinked(g, blocks, owner, ref, node.nodeRef);
      TargetsKey(g, owner[i], n);
      FirstUnique(g, blocks, owner, blocks[i].data.nodeRef, m.nodeRef, ref, node.nodeRef);
      HeadsAgree(m, node, ref, blocks[i]);
    } else {
      HeadsAgree(m, node, 0, blocks[i]);
    }
  }

  lemma {:induction false} TargetsKey(g: Iort, m: nat, n: nat)
    requires g.Valid() && m in g.nodes && n in g.nodes && g.nodes[n].PmcgNode? && SameKey(g, m, n)
    ensures SameKey(g, g.nodes[m].nodeRef, g.nodes[n].nodeRef)
  {
    assert g.ValidNode(m) && g.ValidNode(n);
  }

  /** A lookup finds something exactly if the nodes say so, and what it finds stands for the node. */
  lemma {:induction false} FoundIffKnown(g: Iort, n: nat, key: Block, st: State, a: Names, pend: set<nat>)
    requires g.Valid() && (RcsApart(g) || pend == {}) && n in g.nodes && !g.nodes[n].BadNode?
    requires a.finished == st.numBlocks <= |st.blocks|
    requires Image(g, st.blocks, a.owners, pend) && KeyFor(g, st.blocks, a.owners, n, key)
    requires Above(g, a.owners, pend, n, g.Rank(n) + 1)
    ensures Find(key, st).InTable? <==> Known(g, a, n)
    ensures Find(key, st).InTable? ==>
              var x := Find(key, st).index;
              LookAlike(g, a.owners[x], n) && NoneBefore(g, a.owners, x, n)
  {
    if Find(key, st).InTable? {
      var x := Find(key, st).index;
      MatchLooksAlike(g, n, key, st.blocks, a.owners, pend, x);
      forall y | 0 <= y < x ensures !LookAlike(g, a.owners[y], n) {
        if LookAlike(g, a.owners[y], n) {
          LookAlikeMatches(g, n, key, st.blocks, a.owners, pend, y);
          SearchIsFirst(key, st.blocks, st.numBlocks, y);
        }
      }
    }
    if Known(g, a, n) {
      var i :| 0 <= i < |a.owners| && i < a.finished && LookAlike(g, a.owners[i], n);
      LookAlikeMatches(g, n, key, st.blocks, a.owners, pend, i);
      SearchIsFirst(key, st.blocks, st.numBlocks, i);
    }
  }

  // ------------------------------------------------------------------ which block an entry names

  /** Each entry of block i holds the offset of the block that the list of names gives for it. */
  ghost predicate WiredAt(blocks: seq<Block>, links: seq<seq<nat>>, i: nat)
    requires i < |blocks| == |links|
  {
    && |links[i]| == |blocks[i].maps|
    && forall l {:trigger links[i][l]} :: 0 <= l < |links[i]| ==>
         LiesAt(blocks, links[i][l], blocks[i].maps[l].outputRef)
  }

  ghost predicate Wired(blocks: seq<Block>, links: seq<seq<nat>>) {
    && |links| == |blocks|
    && forall i {:trigger WiredAt(blocks, links, i)} :: 0 <= i < |blocks| ==> WiredAt(blocks, links, i)
  }

  lemma {:induction false} StillLies(a: seq<Block>, b: seq<Block>, x: nat, ref: nat)
    requires LiesAt(a, x, ref) && |a| <= |b| && SameShape(a, b, |a|)
    ensures LiesAt(b, x, ref)
  {
    OffSame(a, b, x);
  }

  /** A block that keeps its entries keeps naming the same blocks. */
  lemma {:induction false} WiredFrame(a: seq<Block>, b: seq<Block>, la: seq<seq<nat>>, lb: seq<seq<nat>>, i: nat)
    requires |a| == |la| <= |b| == |lb| && SameShape(a, b, |a|)
    requires i < |a| && a[i].maps == b[i].maps && la[i] == lb[i] && WiredAt(a, la, i)
    ensures WiredAt(b, lb, i)
  {
    hide LiesAt;
    forall l | 0 <= l < |lb[i]| ensures LiesAt(b, lb[i][l], b[i].maps[l].outputRef) {
      assert LiesAt(a, la[i][l], a[i].maps[l].outputRef);
      StillLies(a, b, la[i][l], a[i].maps[l].outputRef);
    }
  }

  lemma {:induction false} WiredPush(blocks: seq<Block>, links: seq<seq<nat>>, own: Block)
    requires Wired(blocks, links) && own.maps == []
    ensures Wired(blocks + [own], links + [[]])
  {
    var b, l := blocks + [own], links + [[]];
    forall i | 0 <= i < |b| ensures WiredAt(b, l, i) {
      if i < |blocks| {
        assert WiredAt(blocks, links, i);
        WiredFrame(blocks, b, links, l, i);
      }
    }
  }

  /** One more entry of block k, naming block x. */
  lemma {:induction false} WiredEntry(s: seq<Block>, links: seq<seq<nat>>, k: nat, m: Mapping, ref: nat, seen: Block,
      x: nat)
    requires Wired(s, links) && k < |s| && LiesAt(s, x, ref)
    ensures Wired(s[k := WithEntry(s[k], m, ref, seen)], links[k := links[k] + [x]])
  {
    var b, lb := s[k := WithEntry(s[k], m, ref, seen)], links[k := links[k] + [x]];
    forall i | 0 <= i < |b| ensures WiredAt(b, lb, i) {
      assert WiredAt(s, links, i);
      if i == k { WiredOwn(s, b, links, lb, k, x); } else { WiredFrame(s, b, links, lb, i); }
    }
  }

  lemma {:induction false} WiredOwn(s: seq<Block>, b: seq<Block>, links: seq<seq<nat>>, lb: seq<seq<nat>>, k: nat,
      x: nat)
    requires |s| == |links| == |b| == |lb| && k < |s| && SameShape(s, b, |s|) && WiredAt(s, links, k)
    requires lb[k] == links[k] + [x] && |b[k].maps| == |s[k].maps| + 1 && b[k].maps[..|s[k].maps|] == s[k].maps
    requires LiesAt(s, x, b[k].maps[|s[k].maps|].outputRef)
    ensures WiredAt(b, lb, k)
  {
    hide LiesAt;
    var e := |s[k].maps|;
    forall l | 0 <= l < |lb[k]| ensures LiesAt(b, lb[k][l], b[k].maps[l].outputRef) {
      if l < e {
        assert b[k].maps[..e][l] == s[k].maps[l];
        assert LiesAt(s, links[k][l], s[k].maps[l].outputRef);
        StillLies(s, b, links[k][l], s[k].maps[l].outputRef);
      } else {
        StillLies(s, b, x, b[k].maps[e].outputRef);
      }
    }
  }

  // ------------------------------------------------------------------ the recursion

  /** The state st has exactly the blocks that a lists; they are faithful, and their entries name what a says. */
  ghost predicate Listing(g: Iort, st: State, a: Names, pend: set<nat>) {
    && a.finished == st.numBlocks <= |st.blocks| == |a.owners|
    && Image(g, st.blocks, a.owners, pend) && Wired(st.blocks, a.links)
  }

  /** Block x, at offset ref, stands for n, and its header was read off. */
  ghost predicate Placed(g: Iort, n: nat, r: Added, a: Names, x: nat) {
    && |a.owners| == |r.st.blocks|
    && LiesAt(r.st.blocks, x, r.ref) && Stands(g, a.owners[x], n)
    && r.seen == r.st.blocks[x]
  }

  lemma {:induction false} AddImage(g: Iort, n: nat, st: State, a: Names, pend: set<nat>)
    requires g.Valid() && RcsApart(g) && n in g.nodes && !g.nodes[n].BadNode?
    requires PmcgReady(g, n, st) && (g.nodes[n].PmcgNode? ==> pend == {})
    requires Listing(g, st, a, pend) && Above(g, a.owners, pend, n, g.Rank(n) + 1)
    ensures Listing(g, Add(g, n, st).st, Enter(g, n, a), pend)
    ensures Placed(g, n, Add(g, n, st), Enter(g, n, a), PlaceOf(g, a, n))
    decreases g.Rank(n), 1, 0
  {
    hide AddKeyed;
    hide Enter, PlaceOf;
    var key, peak := KeyOf(g, n, st, a, pend);
    KeyedImage(g, n, st, key, peak, a, pend);
  }

  /** The key a node is looked up under, once its PMCG target, if it has one, is resolved. */
  lemma {:induction false} KeyOf(g: Iort, n: nat, st: State, a: Names, pend: set<nat>) returns (key: Block, peak: nat)
    requires g.Valid() && RcsApart(g) && n in g.nodes && !g.nodes[n].BadNode?
    requires PmcgReady(g, n, st) && (g.nodes[n].PmcgNode? ==> pend == {}) && Listing(g, st, a, pend)
    ensures key.WellFormed() && key.kind == KindOf(g.nodes[n]) && key.maps == [] && key.numMaps == NumMaps(g.nodes[n])
    ensures KeyFor(g, st.blocks, a.owners, n, key)
    ensures Add(g, n, st) == AddKeyed(g, n, st, key, peak)
  {
    hide Add, AddKeyed;
    assert g.ValidNode(n);
    var node := g.nodes[n];
    if node.PmcgNode? {
      ReadyTarget(g, n, st);
      ReadyAdd(g, n, st);
      var t := AddPmcgTarget(g, n, st);
      FoundFirst(g, node.nodeRef, st, a);
      key, peak := Head(node, t.ref), t.peak;
    } else {
      AddIsLookup(g, n, st);
      key, peak := Head(node, 0), 0;
    }
  }

  /** Between calls a found target is the first block that lookups take for it. */
  lemma {:induction false} FoundFirst(g: Iort, t: nat, st: State, a: Names)
    requires g.Valid() && RcsApart(g) && t in g.nodes && !g.nodes[t].BadNode? && !g.nodes[t].PmcgNode?
    requires Listing(g, st, a, {}) && Find(Head(g.nodes[t], 0), st).InTable?
    ensures FirstLinked(g, st.blocks, a.owners, Off(st.blocks, Find(Head(g.nodes[t], 0), st).index), t)
  {
    var key := Head(g.nodes[t], 0);
    FoundIffKnown(g, t, key, st, a, {});
    assert LiesAt(st.blocks, Find(key, st).index, Off(st.blocks, Find(key, st).index));
  }

  lemma {:induction false} KeyedImage(g: Iort, n: nat, st: State, key: Block, peak: nat, a: Names, pend: set<nat>)
    requires g.Valid() && RcsApart(g) && n in g.nodes && !g.nodes[n].BadNode?
    requires key.WellFormed() && key.kind == KindOf(g.nodes[n]) && key.maps == [] && key.numMaps == NumMaps(g.nodes[n])
    requires Listing(g, st, a, pend) && KeyFor(g, st.blocks, a.owners, n, key)
    requires Above(g, a.owners, pend, n, g.Rank(n) + 1)
    ensures Listing(g, AddKeyed(g, n, st, key, peak).st, Enter(g, n, a), pend)
    ensures Placed(g, n, AddKeyed(g, n, st, key, peak), Enter(g, n, a), PlaceOf(g, a, n))
    decreases g.Rank(n), 0, |g.nodes[n].Maps()| + 2
  {
    hide AddKeyed, PlaceOf, Image, Wired, KeyFor, Above, Find, LookAlike;
    FoundIffKnown(g, n, key, st, a, pend);
    match Find(key, st)
    case InTable(i) =>
      FoundResult(g, n, st, key, peak);
      FirstIsPlace(g, a, n, i);
    case Nowhere =>
      FreshResult(g, n, st, key, peak);
      FreshImage(g, n, st, key, a, pend);
  }

  lemma {:induction false} FirstIsPlace(g: Iort, a: Names, n: nat, x: nat)
    requires FirstAlike(g, a, n, x)
    ensures PlaceOf(g, a, n) == x
  {
    hide PlaceOf, LookAlike;
    assert FirstAlike(g, a, n, PlaceOf(g, a, n));
  }

  /** A new block, with everything its mappings drag in behind it. */
  lemma {:induction false} FreshImage(g: Iort, n: nat, st: State, key: Block, a: Names, pend: set<nat>)
    requires g.Valid() && RcsApart(g) && n in g.nodes && !g.nodes[n].BadNode? && key.maps == []
    requires Listing(g, st, a, pend) && KeyFor(g, st.blocks, a.owners, n, key)
    requires Above(g, a.owners, pend, n, g.Rank(n) + 1)
    ensures var k := |st.blocks|;
            var f := Fill(g, n, 0, k, st.(blocks := st.blocks + [Own(g, n, key)])).st;
            var b := EnterMaps(g, n, 0, k, Laid(a, n));
            && b.finished == f.numBlocks < |f.blocks| && Image(g, f.blocks, b.owners, pend) && Wired(f.blocks, b.links)
            && |b.owners| == |f.blocks| && b.owners[k] == n && SameKey(g, n, n)
    decreases g.Rank(n), 0, |g.nodes[n].Maps()| + 1
  {
    hide Fill;
    hide Wired;
    var k := |st.blocks|;
    var laid := st.(blocks := st.blocks + [Own(g, n, key)]);
    var b := Laid(a, n);
    PushImage(g, n, st.blocks, Own(g, n, key), key, a.owners, pend);
    WiredPush(st.blocks, a.links, Own(g, n, key));
    assert g.Reaches(n, n);
    FillImage(g, n, 0, k, laid, b, pend + {k});
    var f := Fill(g, n, 0, k, laid).st;
    var c := EnterMaps(g, n, 0, k, b);
    assert c.owners[..|b.owners|][k] == n;
    FillConserves(g, n, 0, k, laid);
    FinishImage(g, f.blocks, c.owners, pend, k);
    SelfKey(g, n);
  }

  lemma {:induction false} FinishImage(g: Iort, blocks: seq<Block>, owner: seq<nat>, pend: set<nat>, x: nat)
    requires Image(g, blocks, owner, pend + {x}) && x < |blocks| && Faithful(g, blocks, owner, x)
    ensures Image(g, blocks, owner, pend)
  {}

  lemma {:induction false} PushImage(g: Iort, n: nat, blocks: seq<Block>, own: Block, key: Block, owner: seq<nat>,
      pend: set<nat>)
    requires g.Valid() && n in g.nodes && !g.nodes[n].BadNode? && Image(g, blocks, owner, pend)
    requires KeyFor(g, blocks, owner, n, key) && own == Own(g, n, key)
    ensures Image(g, blocks + [own], owner + [n], pend + {|blocks|})
    ensures FilledTo(g, blocks + [own], owner + [n], |blocks|, 0)
  {
    var b, o := blocks + [own], owner + [n];
    assert Extends(blocks, owner, b, o);
    OwnHeader(g, n, blocks, own, key, owner);
    hide KeyFor, HeadOf;
    forall i | 0 <= i < |blocks|
      ensures HeaderFaithful(g, b, o, i) && (i !in pend ==> Faithful(g, b, o, i))
    {
      assert HeaderFaithful(g, blocks, owner, i);
      assert i !in pend ==> Faithful(g, blocks, owner, i);
      BlockFrame(g, blocks, owner, b, o, i);
    }
  }

  /** The header just laid down is the node's. */
  lemma {:induction false} OwnHeader(g: Iort, n: nat, blocks: seq<Block>, own: Block, key: Block, owner: seq<nat>)
    requires n in g.nodes && !g.nodes[n].BadNode? && |owner| == |blocks|
    requires KeyFor(g, blocks, owner, n, key) && own == Own(g, n, key)
    ensures HeaderFaithful(g, blocks + [own], owner + [n], |blocks|)
  {
    assert Extends(blocks, owner, blocks + [own], owner + [n]);
    if g.nodes[n].PmcgNode? {
      LinkedFrame(g, blocks, owner, blocks + [own], owner + [n], own.data.nodeRef, g.nodes[n].nodeRef);
    }
  }

  lemma {:induction false} FillImage(g: Iort, n: nat, j: nat, k: nat, st: State, a: Names, pend: set<nat>)
    requires g.Valid() && RcsApart(g) && n in g.nodes && j <= |g.nodes[n].Maps()| && k < |st.blocks|
    requires Listing(g, st, a, pend) && Above(g, a.owners, pend, n, g.Rank(n))
    requires k in pend && a.owners[k] == n && FilledTo(g, st.blocks, a.owners, k, j)
    ensures var f := Fill(g, n, j, k, st).st;
            var b := EnterMaps(g, n, j, k, a);
            && Listing(g, f, b, pend) && Faithful(g, f.blocks, b.owners, k)
    decreases g.Rank(n), 0, |g.nodes[n].Maps()| - j
  {
    hide Fill;
    hide Add;
    hide Image, Wired, PlaceOf;
    if j == |g.nodes[n].Maps()| {
      FillDone(g, n, k, st);
    } else {
      FillStep(g, n, j, k, st);
      var m := g.nodes[n].Maps()[j];
      var r := Add(g, m.outputRef, st);
      AboveTarget(g, n, j, a.owners, pend);
      AddImage(g, m.outputRef, st, a, pend);
      var b, x := Enter(g, m.outputRef, a), PlaceOf(g, a, m.outputRef);
      var st' := AfterEntry(m, k, r);
      assert b.owners[..|a.owners|][k] == n;
      EntryImage(g, n, j, k, st.blocks, a.owners, r, b, st'.blocks, pend, x);
      WiredEntry(r.st.blocks, b.links, k, m, r.ref, r.seen, x);
      AboveFrame(g, a.owners, b.owners, pend, n, g.Rank(n));
      FillImage(g, n, j + 1, k, st', Wire(b, k, x), pend);
    }
  }

  lemma {:induction false} AboveTarget(g: Iort, n: nat, j: nat, owner: seq<nat>, pend: set<nat>)
    requires g.Valid() && n in g.nodes && j < |g.nodes[n].Maps()| && Above(g, owner, pend, n, g.Rank(n))
    ensures var t := g.nodes[n].Maps()[j].outputRef;
            g.ValidRef(n, t) && Above(g, owner, pend, t, g.Rank(t) + 1)
  {
    assert g.ValidNode(n);
    forall p <- pend ensures g.Reaches(owner[p], g.nodes[n].Maps()[j].outputRef) { ReachesTarget(g, owner[p], n, j); }
  }

  lemma {:induction false} AboveFrame(g: Iort, a: seq<nat>, b: seq<nat>, pend: set<nat>, n: nat, r: nat)
    requires g.Valid() && Above(g, a, pend, n, r) && |a| <= |b| && a == b[..|a|]
    ensures Above(g, b, pend, n, r)
  {
    forall p <- pend ensures b[p] == a[p] { assert b[p] == b[..|a|][p]; }
  }

  /** Storing one entry of block k keeps every other block, and block k is filled one entry further. */
  lemma {:induction false} EntryImage(g: Iort, n: nat, j: nat, k: nat, was: seq<Block>, owner: seq<nat>, r: Added,
      a: Names,
                                      b: seq<Block>, pend: set<nat>, x: nat)
    requires g.Valid() && n in g.nodes && j < |g.nodes[n].Maps()| && k < |was| == |owner| <= |r.st.blocks|
    requires r.st.blocks[..|was|] == was && |a.owners| == |r.st.blocks| && owner == a.owners[..|owner|]
    requires k in pend && owner[k] == n && FilledTo(g, was, owner, k, j)
    requires Image(g, r.st.blocks, a.owners, pend) && Placed(g, g.nodes[n].Maps()[j].outputRef, r, a, x)
    requires b == r.st.blocks[k := WithEntry(r.st.blocks[k], g.nodes[n].Maps()[j], r.ref, r.seen)]
    ensures Image(g, b, a.owners, pend) && FilledTo(g, b, a.owners, k, j + 1)
  {
    var s, o := r.st.blocks, a.owners;
    assert forall i :: 0 <= i < |was| ==> was[i] == s[..|was|][i] && owner[i] == o[..|owner|][i];
    assert Extends(was, owner, s, o) && Extends(s, o, b, o) && Extends(was, owner, b, o);
    OffSame(s, b, x);
    assert LiesAt(b, x, r.ref);
    assert HeaderFaithful(g, s, o, k) && HeaderFaithful(g, s, o, x);
    forall i | 0 <= i < |b|
      ensures HeaderFaithful(g, b, o, i) && (i !in pend ==> Faithful(g, b, o, i))
    {
      assert HeaderFaithful(g, s, o, i);
      assert i !in pend ==> Faithful(g, s, o, i);
      if i == k {
        if g.nodes[n].PmcgNode? { LinkedFrame(g, s, o, b, o, s[k].data.nodeRef, g.nodes[n].nodeRef); }
      } else {
        BlockFrame(g, s, o, b, o, i);
      }
    }
    StepOwn(g, n, j, k, was, owner, b, o, r.seen, x, r.ref);
  }

  /** The base read off the header of a block that stands for t is t's. */
  lemma {:induction false} BaseOfSeen(g: Iort, o: nat, t: nat, seen: Block)
    requires HeadOf(g.At(o), seen) && SameHead(g.At(o), g.At(t))
    ensures SmmuBaseOf(seen) == if g.At(t).IsSmmu() then g.At(t).base else 0
  {}

  /** The entries filled in before still lead where they should. */
  lemma {:induction false} EntriesFrame(g: Iort, j: nat, k: nat, a: seq<Block>, oa: seq<nat>, b: seq<Block>,
      o: seq<nat>, l: nat)
    requires k < |a| && Extends(a, oa, b, o) && j <= |g.At(oa[k]).Maps()| && FilledTo(g, a, oa, k, j) && l < j
    ensures |a[k].maps| == j && EntryOf(g, b, o, a[k].maps[l], g.At(oa[k]).Maps()[l])
  {
    assert EntryOf(g, a, oa, a[k].maps[l], g.At(oa[k]).Maps()[l]);
    hide Linked, FirstLinked, Extends;
    LinkedFrame(g, a, oa, b, o, a[k].maps[l].outputRef, g.At(oa[k]).Maps()[l].outputRef);
  }

  /** So after entry j an RC's smmu_base is that of the SMMU its mapping j leads to. */
  lemma {:induction false} EntryBase(g: Iort, n: nat, j: nat, b: Block, ref: nat, seen: Block, o: nat)
    requires j < |g.At(n).Maps()| && HeadOf(g.At(o), seen) && Stands(g, o, g.At(n).Maps()[j].outputRef)
    ensures var e := WithEntry(b, g.At(n).Maps()[j], ref, seen);
            e.data.RcData? ==> e.data.smmuBase == SmmuBehind(g, g.At(n), j + 1)
  {
    BaseOfSeen(g, o, g.At(n).Maps()[j].outputRef, seen);
    hide SmmuBaseOf, HeadOf, Stands;
  }

  lemma {:induction false} FilledMore(g: Iort, b: seq<Block>, o: seq<nat>, k: nat, j: nat)
    requires k < |b| == |o| && j < |g.At(o[k]).Maps()| && |b[k].maps| == j + 1
    requires forall l {:trigger b[k].maps[l]} :: 0 <= l < j + 1 ==> EntryOf(g, b, o, b[k].maps[l], g.At(o[k]).Maps()[l])
    requires b[k].data.RcData? ==> b[k].data.smmuBase == SmmuBehind(g, g.At(o[k]), j + 1)
    ensures FilledTo(g, b, o, k, j + 1)
  {
    hide EntryOf, SmmuBehind;
  }

  /** Entry j of block k points to block x, and the entries before it still hold. */
  lemma {:induction false} StepOwn(g: Iort, n: nat, j: nat, k: nat, a: seq<Block>, oa: seq<nat>,
                                   b: seq<Block>, o: seq<nat>, seen: Block, x: nat, ref: nat)
    requires g.Valid() && n in g.nodes && j < |g.nodes[n].Maps()| && k < |a| && Extends(a, oa, b, o)
    requires oa[k] == n && FilledTo(g, a, oa, k, j)
    requires LiesAt(b, x, ref) && Stands(g, o[x], g.nodes[n].Maps()[j].outputRef) && HeadOf(g.At(o[x]), seen)
    requires a[k].data.RcData? <==> g.nodes[n].RcNode?
    requires b[k] == WithEntry(a[k], g.nodes[n].Maps()[j], ref, seen)
    ensures FilledTo(g, b, o, k, j + 1)
  {
    var node, maps := g.At(n), b[k].maps;
    assert o[k] == n && node == g.nodes[n] && |a[k].maps| == j && |maps| == j + 1;
    EntryBase(g, n, j, a[k], ref, seen, o[x]);
    assert EntryOf(g, b, o, maps[j], node.Maps()[j]) by { assert Linked(g, b, o, ref, node.Maps()[j].outputRef); }
    hide Linked, Stands, HeadOf, LiesAt, Extends, EntryOf;
    forall l | 0 <= l < j + 1 ensures EntryOf(g, b, o, maps[l], node.Maps()[l]) {
      if l < j {
        EntriesFrame(g, j, k, a, oa, b, o, l);
        assert maps[l] == a[k].maps[l];
      }
    }
    hide *;
    FilledMore(g, b, o, k, j);
  }
}
