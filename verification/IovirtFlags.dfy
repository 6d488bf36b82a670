/**
 What the overlap flags say about the IORT. On the table a pair of mappings is compared by block
 offsets: a node that has several blocks has several offsets, nodes that lookups take for one another share
 one, and the mappings of a node that was dropped are not in the table at all.
 */
module IovirtFlags {
  import opened Iort
  import opened IovirtLayout
  import opened IovirtNames
  import opened IovirtImage
  import opened IovirtRun
  import opened IovirtEntered
  import opened IovirtDedup
  import opened IovirtResolution
  import opened IovirtOverlap

  function AsEntry(m: Mapping): Entry { Entry(m.inputBase, m.idCount, m.outputBase, m.outputRef) }

  // ------------------------------------------------------------------ any run

  /** Mapping k of the node behind block x names a block. */
  ghost predicate Named(g: Iort, a: Names, x: nat, k: nat) {
    x < |a.owners| && k < |a.links[x]| && k < |g.At(a.owners[x]).Maps()| && a.links[x][k] < |a.owners|
  }

  ghost function MappingAt(g: Iort, a: Names, x: nat, k: nat): Mapping
    requires Named(g, a, x, k)
  {
    g.At(a.owners[x]).Maps()[k]
  }

  /** The two mappings name one block, made from an ITS group or not. */
  ghost predicate OneTarget(g: Iort, a: Names, x: nat, k: nat, y: nat, j: nat, its: bool) {
    && Named(g, a, x, k) && Named(g, a, y, j) && a.links[x][k] == a.links[y][j]
    && g.At(a.owners[a.links[x][k]]).ItsNode? == its
  }

  /** The first of the two comes earlier in the table. */
  predicate Earlier(p: Pair) { p.a < p.b || (p.a == p.b && p.k < p.j) }

  ghost predicate NamesOverlap(g: Iort, a: Names, p: Pair, its: bool) {
    && Earlier(p) && OneTarget(g, a, p.a, p.k, p.b, p.j, its)
    && Meets(AsEntry(MappingAt(g, a, p.a, p.k)), AsEntry(MappingAt(g, a, p.b, p.j)))
  }

  /** What an entry says of its mapping, and where it leads. */
  lemma {:induction false} EntrySays(g: Iort, blocks: seq<Block>, a: Names, x: nat, k: nat)
    requires Image(g, blocks, a.owners, {}) && Wired(blocks, a.links) && x < |blocks| && k < |blocks[x].maps|
    ensures Named(g, a, x, k)
    ensures var e, m := blocks[x].maps[k], MappingAt(g, a, x, k);
            && e.outputBase == m.outputBase && e.idCount == m.idCount && LiesAt(blocks, a.links[x][k], e.outputRef)
            && (LeadsToIts(blocks, e.outputRef) <==> g.At(a.owners[a.links[x][k]]).ItsNode?)
  {
    assert Faithful(g, blocks, a.owners, x) && WiredAt(blocks, a.links, x);
    var e, z := blocks[x].maps[k], a.links[x][k];
    assert EntryOf(g, blocks, a.owners, e, g.At(a.owners[x]).Maps()[k]) && LiesAt(blocks, z, e.outputRef);
    assert HeaderFaithful(g, blocks, a.owners, z);
    hide Image, Wired, WiredAt, Linked;
    if y: nat :| LiesAt(blocks, y, e.outputRef) && blocks[y].kind == ItsGroup { OffInjective(blocks, y, z); }
  }

  lemma {:induction false} MapCounts(g: Iort, blocks: seq<Block>, a: Names, x: nat)
    requires Image(g, blocks, a.owners, {}) && Wired(blocks, a.links) && x < |blocks|
    ensures |blocks[x].maps| == |g.At(a.owners[x]).Maps()| == |a.links[x]|
    ensures |blocks[x].maps| > 0 ==> HasMaps(blocks[x])
  {
    assert HeaderFaithful(g, blocks, a.owners, x) && Faithful(g, blocks, a.owners, x) && WiredAt(blocks, a.links, x);
  }

  /** The pass sees an overlap of two entries exactly if they name one block and their mappings pass the test. */
  lemma {:induction false} OverlapOnImage(g: Iort, blocks: seq<Block>, a: Names, p: Pair, its: bool)
    requires Image(g, blocks, a.owners, {}) && Wired(blocks, a.links)
    ensures Overlaps(blocks, p, its) <==> NamesOverlap(g, a, p, its)
  {
    assert |blocks| == |a.owners|;
    hide Image, Wired, Meets, LeadsToIts, LiesAt;
    if p.a < |blocks| && p.b < |blocks| {
      MapCounts(g, blocks, a, p.a);
      MapCounts(g, blocks, a, p.b);
      if p.k < |blocks[p.a].maps| && p.j < |blocks[p.b].maps| {
        EntrySays(g, blocks, a, p.a, p.k);
        EntrySays(g, blocks, a, p.b, p.j);
        var d, e := blocks[p.a].maps[p.k], blocks[p.b].maps[p.j];
        SameRanges(d, AsEntry(MappingAt(g, a, p.a, p.k)), e, AsEntry(MappingAt(g, a, p.b, p.j)));
        SameBlock(blocks, a.links[p.a][p.k], d.outputRef, a.links[p.b][p.j], e.outputRef);
      }
    }
  }

  lemma {:induction false} SameBlock(blocks: seq<Block>, x: nat, a: nat, y: nat, b: nat)
    requires LiesAt(blocks, x, a) && LiesAt(blocks, y, b)
    ensures x == y <==> a == b
  {
    if a == b { OffInjective(blocks, x, y); }
  }

  lemma {:induction false} SameRanges(x: Entry, m: Entry, y: Entry, n: Entry)
    requires x.outputBase == m.outputBase && x.idCount == m.idCount && y.outputBase == n.outputBase &&
             y.idCount == n.idCount
    ensures Meets(x, y) == Meets(m, n)
  {}

  ghost predicate SharesId(m: Mapping, n: Mapping) {
    exists id :: InOutput(id, AsEntry(m)) && InOutput(id, AsEntry(n))
  }

  /** All output ranges have at least one identifier and stay within 32 bits. */
  ghost predicate ProperMaps(g: Iort, owner: seq<nat>) {
    forall x, k {:trigger g.At(owner[x]).Maps()[k]} :: 0 <= x < |owner| && 0 <= k < |g.At(owner[x]).Maps()| ==>
      IovirtOverlap.Proper(AsEntry(g.At(owner[x]).Maps()[k]))
  }

  /** Two different mappings, the first of block x, name one block and share an identifier. */
  ghost predicate Joined(g: Iort, a: Names, x: nat, k: nat, y: nat, j: nat, its: bool) {
    && (x != y || k != j) && OneTarget(g, a, x, k, y, j, its)
    && SharesId(MappingAt(g, a, x, k), MappingAt(g, a, y, j))
  }

  ghost predicate JoinedAt(g: Iort, a: Names, x: nat, its: bool) {
    exists k, y, j :: Joined(g, a, x, k, y, j, its)
  }

  /** For proper ranges the order of the two does not matter. */
  lemma {:induction false} JoinedIffOverlap(g: Iort, a: Names, p: Pair, its: bool)
    requires ProperMaps(g, a.owners) && Earlier(p)
    ensures NamesOverlap(g, a, p, its) <==> Joined(g, a, p.a, p.k, p.b, p.j, its)
    ensures NamesOverlap(g, a, p, its) <==> Joined(g, a, p.b, p.j, p.a, p.k, its)
  {
    if OneTarget(g, a, p.a, p.k, p.b, p.j, its) {
      MeetsIsIntersection(AsEntry(MappingAt(g, a, p.a, p.k)), AsEntry(MappingAt(g, a, p.b, p.j)));
    }
    hide Meets, InOutput, ProperMaps;
  }

  function PairFor(x: nat, k: nat, y: nat, j: nat): Pair {
    if x < y || (x == y && k < j) then Pair(x, k, y, j) else Pair(y, j, x, k)
  }

  /** Two entries are seen to overlap, whichever comes first, exactly if their mappings are joined. */
  lemma {:induction false} JoinedIsSeen(g: Iort, blocks: seq<Block>, a: Names, x: nat, k: nat, y: nat, j: nat,
      its: bool)
    requires Image(g, blocks, a.owners, {}) && Wired(blocks, a.links) && ProperMaps(g, a.owners)
    requires x != y || k != j
    ensures Overlaps(blocks, PairFor(x, k, y, j), its) <==> Joined(g, a, x, k, y, j, its)
  {
    hide Image, Wired, ProperMaps, NamesOverlap, Overlaps, Joined;
    OverlapOnImage(g, blocks, a, PairFor(x, k, y, j), its);
    JoinedIffOverlap(g, a, PairFor(x, k, y, j), its);
  }

  /** A block of the table has a true overlap exactly if one of its mappings is joined with a different one. */
  lemma {:induction false} FlagExact(g: Iort, blocks: seq<Block>, a: Names, x: nat, its: bool)
    requires Image(g, blocks, a.owners, {}) && Wired(blocks, a.links) && ProperMaps(g, a.owners)
    ensures TrueOverlap(blocks, x, its) <==> JoinedAt(g, a, x, its)
  {
    hide Image, Wired, ProperMaps, NamesOverlap, Joined;
    if TrueOverlap(blocks, x, its) {
      var p :| Overlaps(blocks, p, its) && (x == p.a || x == p.b);
      assert Earlier(p);
      hide Overlaps;
      JoinedIsSeen(g, blocks, a, p.a, p.k, p.b, p.j, its);
      JoinedIffOverlap(g, a, p, its);
    }
    hide Overlaps;
    if k, y, j :| Joined(g, a, x, k, y, j, its) {
      JoinedDiffers(g, a, x, k, y, j, its);
      JoinedIsSeen(g, blocks, a, x, k, y, j, its);
    }
  }

  lemma {:induction false} JoinedDiffers(g: Iort, a: Names, x: nat, k: nat, y: nat, j: nat, its: bool)
    requires Joined(g, a, x, k, y, j, its)
    ensures x != y || k != j
  {}

  /**
   On every run, forward references and lookalikes included: apart from stray hits behind its own entries, the
   pass marks a block exactly if one of its mappings and another mapping with a block name one block and share
   an identifier.
   */
  lemma {:induction false} RunMarks(g: Iort, order: seq<nat>, k: nat, over: Overrun, x: nat, its: bool)
    requires g.Valid() && RcsApart(g) && AllIn(g, order) && k <= |order|
    requires PmcgsReady(g, order, k) && ProperMaps(g, Listed(g, order, k).owners)
    ensures Marked(Build(g, order, k).blocks, over, x, its) <==>
            JoinedAt(g, Listed(g, order, k), x, its) || StrayHit(Build(g, order, k).blocks, over, x, its)
  {
    RunImage(g, order, k);
    hide Build, Listed, Image, Wired, ProperMaps, PmcgsReady, Marked, StrayHit, TrueOverlap, JoinedAt;
    FlagExact(g, Build(g, order, k).blocks, Listed(g, order, k), x, its);
    MarkedExactly(Build(g, order, k).blocks, over, x, its);
  }

  /** Joined mappings lead to nodes of equal keys. */
  lemma {:induction false} JoinedSameKey(g: Iort, a: Names, x: nat, k: nat, y: nat, j: nat, its: bool)
    requires AllStandIns(g, a) && Joined(g, a, x, k, y, j, its)
    ensures SameKey(g, MappingAt(g, a, x, k).outputRef, MappingAt(g, a, y, j).outputRef)
  {
    assert StandIns(g, a, x) && StandIns(g, a, y);
    var z, s, t := a.links[x][k], MappingAt(g, a, x, k).outputRef, MappingAt(g, a, y, j).outputRef;
    assert StandIn(g, a, z, s) && StandIn(g, a, z, t);
    hide SameKey, SharesId, StandIns, AllStandIns;
    SameKeySym(g, a.owners[z], s);
    SameKeyTrans(g, s, a.owners[z], t);
  }

  // ------------------------------------------------------------------ pairs of nodes of the IORT

  /**
   Mapping k of node n and mapping j of node m lead to nodes that say the same, ITS groups or not, and share an
   identifier. They are different mappings: nodes that say the same count as one, so that listing a node again
   adds no pair.
   */
  ghost predicate Collide(g: Iort, n: nat, k: nat, m: nat, j: nat, its: bool) {
    && k < |g.At(n).Maps()| && j < |g.At(m).Maps()| && (g.At(n) != g.At(m) || k != j)
    && var s, t := g.At(n).Maps()[k], g.At(m).Maps()[j];
    && g.At(s.outputRef) == g.At(t.outputRef) && g.At(s.outputRef).ItsNode? == its && SharesId(s, t)
  }

  /** Block x was made from a node that says what n says. */
  ghost predicate Says(g: Iort, owner: seq<nat>, x: nat, n: nat) { x < |owner| && g.At(owner[x]) == g.At(n) }

  /** The pass sees the two mappings overlap, in blocks that have the contents of their nodes. */
  ghost predicate SeenPair(g: Iort, blocks: seq<Block>, owner: seq<nat>, n: nat, k: nat, m: nat, j: nat, its: bool) {
    exists x: nat, y: nat {:trigger Says(g, owner, x, n), Says(g, owner, y, m)} ::
      Says(g, owner, x, n) && Says(g, owner, y, m) && Overlaps(blocks, PairFor(x, k, y, j), its)
  }

  /** Both nodes have a block of their own contents, and the two entries name one block. */
  ghost predicate NamedTogether(g: Iort, a: Names, n: nat, k: nat, m: nat, j: nat) {
    exists x: nat, y: nat {:trigger Says(g, a.owners, x, n), Says(g, a.owners, y, m)} ::
      && Says(g, a.owners, x, n) && Says(g, a.owners, y, m)
      && Named(g, a, x, k) && Named(g, a, y, j) && a.links[x][k] == a.links[y][j]
  }

  /** A stand-in is an ITS group exactly if the target is. */
  lemma {:induction false} StandInKind(g: Iort, a: Names, x: nat, k: nat)
    requires AllStandIns(g, a) && Named(g, a, x, k)
    ensures g.At(a.owners[a.links[x][k]]).ItsNode? == g.At(MappingAt(g, a, x, k).outputRef).ItsNode?
  {
    assert StandIns(g, a, x);
    assert StandIn(g, a, a.links[x][k], MappingAt(g, a, x, k).outputRef);
  }

  /** Blocks of colliding nodes: seen exactly if their entries name one block. */
  lemma {:induction false} CollidingBlocks(g: Iort, blocks: seq<Block>, a: Names, n: nat, k: nat, m: nat, j: nat,
      its: bool, x: nat, y: nat)
    requires Image(g, blocks, a.owners, {}) && Wired(blocks, a.links) && AllStandIns(g, a) && ProperMaps(g, a.owners)
    requires Collide(g, n, k, m, j, its) && Says(g, a.owners, x, n) && Says(g, a.owners, y, m)
    ensures Named(g, a, x, k) && Named(g, a, y, j)
    ensures Overlaps(blocks, PairFor(x, k, y, j), its) <==> a.links[x][k] == a.links[y][j]
  {
    assert StandIns(g, a, x) && StandIns(g, a, y);
    assert StandIn(g, a, a.links[x][k], g.At(a.owners[x]).Maps()[k].outputRef);
    assert StandIn(g, a, a.links[y][j], g.At(a.owners[y]).Maps()[j].outputRef);
    hide Image, Wired, ProperMaps, StandIns, AllStandIns, Overlaps, SharesId, Stands;
    StandInKind(g, a, x, k);
    JoinedIsSeen(g, blocks, a, x, k, y, j, its);
  }

  /** A colliding pair is seen exactly if both nodes have a block of their own contents and their entries name one. */
  lemma {:induction false} SeenIff(g: Iort, blocks: seq<Block>, a: Names, n: nat, k: nat, m: nat, j: nat, its: bool)
    requires Image(g, blocks, a.owners, {}) && Wired(blocks, a.links) && AllStandIns(g, a) && ProperMaps(g, a.owners)
    requires Collide(g, n, k, m, j, its)
    ensures SeenPair(g, blocks, a.owners, n, k, m, j, its) <==> NamedTogether(g, a, n, k, m, j)
  {
    hide Image, Wired, ProperMaps, AllStandIns, Collide, Overlaps, Says;
    forall x: nat, y: nat | Says(g, a.owners, x, n) && Says(g, a.owners, y, m)
      ensures Named(g, a, x, k) && Named(g, a, y, j)
      ensures Overlaps(blocks, PairFor(x, k, y, j), its) <==> a.links[x][k] == a.links[y][j]
    {
      CollidingBlocks(g, blocks, a, n, k, m, j, its, x, y);
    }
  }

  // ------------------------------------------------------------------ one block per node

  lemma {:induction false} SaysIsPresent(g: Iort, owner: seq<nat>, n: nat)
    requires n in g.nodes && forall x :: 0 <= x < |owner| ==> owner[x] in g.nodes
    ensures Present(g, owner, n) <==> exists x: nat :: Says(g, owner, x, n)
  {
    if x: nat :| Says(g, owner, x, n) { assert g.nodes[owner[x]] == g.nodes[n]; }
    if x :| 0 <= x < |owner| && owner[x] in g.nodes && g.nodes[owner[x]] == g.nodes[n] { assert Says(g, owner, x, n); }
  }

  /** The block that a mapping names says what the mapping's target says. */
  lemma {:induction false} NamedSays(g: Iort, a: Names, x: nat, k: nat)
    requires g.Valid() && TargetsDetermined(g) && AllStandIns(g, a) && Named(g, a, x, k)
    requires forall i :: 0 <= i < |a.owners| ==> a.owners[i] in g.nodes
    ensures g.At(a.owners[a.links[x][k]]) == g.At(MappingAt(g, a, x, k).outputRef)
  {
    assert TargetsOf(g, a.owners[x]) && StandIns(g, a, x);
    assert Determined(g, g.At(a.owners[x]).Maps()[k].outputRef);
    assert StandIn(g, a, a.links[x][k], MappingAt(g, a, x, k).outputRef);
  }

  /** With one block per node, mappings that lead to nodes saying the same name one block. */
  lemma {:induction false} OneBlock(g: Iort, a: Names, x: nat, k: nat, y: nat, j: nat)
    requires g.Valid() && TargetsDetermined(g) && AllStandIns(g, a) && Distinct(g, a.owners)
    requires forall i :: 0 <= i < |a.owners| ==> a.owners[i] in g.nodes
    requires Named(g, a, x, k) && Named(g, a, y, j)
    ensures a.links[x][k] == a.links[y][j] <==>
            g.At(MappingAt(g, a, x, k).outputRef) == g.At(MappingAt(g, a, y, j).outputRef)
  {
    hide TargetsDetermined, AllStandIns;
    NamedSays(g, a, x, k);
    NamedSays(g, a, y, j);
  }

  /** Then a colliding pair is seen exactly if both nodes have a block of their own contents. */
  lemma {:induction false} SeenIffPresent(g: Iort, blocks: seq<Block>, a: Names, n: nat, k: nat, m: nat, j: nat,
      its: bool)
    requires g.Valid() && Image(g, blocks, a.owners, {}) && Wired(blocks, a.links) && AllStandIns(g, a)
    requires ProperMaps(g, a.owners) && TargetsDetermined(g) && Distinct(g, a.owners)
    requires forall i :: 0 <= i < |a.owners| ==> a.owners[i] in g.nodes
    requires n in g.nodes && m in g.nodes && Collide(g, n, k, m, j, its)
    ensures SeenPair(g, blocks, a.owners, n, k, m, j, its) <==> Present(g, a.owners, n) && Present(g, a.owners, m)
  {
    hide Image, Wired, ProperMaps, AllStandIns, TargetsDetermined, Distinct, Overlaps, SharesId;
    SaysIsPresent(g, a.owners, n);
    SaysIsPresent(g, a.owners, m);
    hide Present;
    forall x: nat, y: nat | Says(g, a.owners, x, n) && Says(g, a.owners, y, m)
      ensures Overlaps(blocks, PairFor(x, k, y, j), its)
    {
      CollidingBlocks(g, blocks, a, n, k, m, j, its, x, y);
      OneBlock(g, a, x, k, y, j);
    }
    hide Says, Collide;
  }

  /** What a run leaves that has one block per node. */
  lemma {:induction false} SingleFacts(g: Iort, order: seq<nat>, k: nat)
    requires g.Valid() && RcsApart(g) && AllIn(g, order) && k <= |order|
    requires PmcgsReady(g, order, k) && SingleRun(g, order, k)
    ensures var st, a := Build(g, order, k), Listed(g, order, k);
            && Image(g, st.blocks, a.owners, {}) && Wired(st.blocks, a.links) && AllStandIns(g, a)
            && Distinct(g, a.owners)
    ensures forall x {:trigger Listed(g, order, k).owners[x]} :: 0 <= x < |Listed(g, order, k).owners| ==>
              var o := Listed(g, order, k).owners[x];
              o in g.nodes && Entered(g, order, k, o)
  {
    hide Build, Listed, Image, Wired, PmcgsReady, SingleRun, Distinct;
    OneBlockPerNodeIff(g, order, k);
    ListedAllStandIns(g, order, k);
    forall x | 0 <= x < |Listed(g, order, k).owners|
      ensures var o := Listed(g, order, k).owners[x]; o in g.nodes && Entered(g, order, k, o)
    {
      var i := ListedReached(g, order, k, x);
    }
  }

  /** Node n is entered, and collides with a node that is. */
  ghost predicate Colliding(g: Iort, order: seq<nat>, k: nat, n: nat)
    requires g.Valid() && AllIn(g, order) && k <= |order|
  {
    n in g.nodes && Entered(g, order, k, n) &&
    exists i, m, j, its :: m in g.nodes && Entered(g, order, k, m) && Collide(g, n, i, m, j, its)
  }

  /** Every node entered that collides with another one has a block of its own contents. */
  ghost predicate NoneMissing(g: Iort, order: seq<nat>, k: nat)
    requires g.Valid() && AllIn(g, order) && k <= |order|
  {
    forall n :: Colliding(g, order, k, n) ==> Present(g, Listed(g, order, k).owners, n)
  }

  /** Every overlap between nodes entered is seen. */
  ghost predicate AllSeen(g: Iort, order: seq<nat>, k: nat)
    requires g.Valid() && AllIn(g, order) && k <= |order|
  {
    forall n, i, m, j, its ::
      n in g.nodes && Entered(g, order, k, n) && m in g.nodes && Entered(g, order, k, m) ==>
        Collide(g, n, i, m, j, its) ==>
          SeenPair(g, Build(g, order, k).blocks, Listed(g, order, k).owners, n, i, m, j, its)
  }

  lemma {:induction false} CollideSym(g: Iort, n: nat, k: nat, m: nat, j: nat, its: bool)
    requires Collide(g, n, k, m, j, its)
    ensures Collide(g, m, j, n, k, its)
  {
    var id :| InOutput(id, AsEntry(g.At(n).Maps()[k])) && InOutput(id, AsEntry(g.At(m).Maps()[j]));
    assert InOutput(id, AsEntry(g.At(m).Maps()[j]));
  }

  /** The overlap of this pair, if it is one, is seen exactly if both nodes are there. */
  ghost predicate SeenIfPresent(g: Iort, blocks: seq<Block>, owner: seq<nat>, n: nat, i: nat, m: nat, j: nat,
      its: bool)
    requires n in g.nodes && m in g.nodes
  {
    Collide(g, n, i, m, j, its) ==>
      && Collide(g, m, j, n, i, its)
      && (SeenPair(g, blocks, owner, n, i, m, j, its) <==> Present(g, owner, n) && Present(g, owner, m))
  }

  lemma {:induction false} PairSeen(g: Iort, order: seq<nat>, k: nat, n: nat, i: nat, m: nat, j: nat, its: bool)
    requires g.Valid() && RcsApart(g) && TargetsDetermined(g) && AllIn(g, order) && k <= |order|
    requires PmcgsReady(g, order, k) && SingleRun(g, order, k) && ProperMaps(g, Listed(g, order, k).owners)
    requires n in g.nodes && m in g.nodes
    ensures SeenIfPresent(g, Build(g, order, k).blocks, Listed(g, order, k).owners, n, i, m, j, its)
  {
    if Collide(g, n, i, m, j, its) {
      SingleFacts(g, order, k);
      CollideSym(g, n, i, m, j, its);
      hide Build, Listed, Image, Wired, ProperMaps, PmcgsReady, SingleRun, Distinct, AllStandIns, TargetsDetermined,
        Collide, SeenPair, Present;
      SeenIffPresent(g, Build(g, order, k).blocks, Listed(g, order, k), n, i, m, j, its);
    }
  }

  /**
   On a run that leaves one block per node every overlap of the IORT is seen exactly if no node that has one is
   missing, dropped for a lookalike that says something different.
   */
  lemma {:induction false} AllSeenIff(g: Iort, order: seq<nat>, k: nat)
    requires g.Valid() && RcsApart(g) && TargetsDetermined(g) && AllIn(g, order) && k <= |order|
    requires PmcgsReady(g, order, k) && SingleRun(g, order, k) && ProperMaps(g, Listed(g, order, k).owners)
    ensures AllSeen(g, order, k) <==> NoneMissing(g, order, k)
  {
    hide Build, Listed, ProperMaps, PmcgsReady, SingleRun, TargetsDetermined, Entered, Collide, SeenPair, Present;
    if NoneMissing(g, order, k) {
      forall n: nat, i: nat, m: nat, j: nat, its | n in g.nodes && Entered(g, order, k, n) && m in g.nodes &&
          Entered(g, order, k, m) && Collide(g, n, i, m, j, its)
        ensures SeenPair(g, Build(g, order, k).blocks, Listed(g, order, k).owners, n, i, m, j, its)
      {
        PairSeen(g, order, k, n, i, m, j, its);
        assert Colliding(g, order, k, n) && Colliding(g, order, k, m);
      }
    }
    if AllSeen(g, order, k) {
      forall n | Colliding(g, order, k, n) ensures Present(g, Listed(g, order, k).owners, n) {
        var i: nat, m: nat, j: nat, its :| m in g.nodes && Entered(g, order, k, m) && Collide(g, n, i, m, j, its);
        PairSeen(g, order, k, n, i, m, j, its);
      }
    }
  }

  /** A node walked that is missing looks like one with a block that says something different. */
  lemma {:induction false} MissingIsDropped(g: Iort, order: seq<nat>, k: nat, i: nat)
    requires g.Valid() && AllIn(g, order) && i < k <= |order| && !g.nodes[order[i]].BadNode?
    requires !Present(g, Listed(g, order, k).owners, order[i])
    ensures exists x :: 0 <= x < |Listed(g, order, k).owners| &&
              LookAlike(g, Listed(g, order, k).owners[x], order[i]) &&
              g.At(Listed(g, order, k).owners[x]) != g.nodes[order[i]]
  {
    hide Enter, SameKey, Recognisable;
    var o := Listed(g, order, k).owners;
    ListedRepresents(g, order, k, i);
    var x :| 0 <= x < |o| && Stands(g, o[x], order[i]);
    var l := ListedReached(g, order, k, x);
    assert g.At(o[x]) != g.nodes[order[i]];
  }

  /** Some mapping of the node behind block x collides with one of an entered node. */
  ghost predicate CollidesAt(g: Iort, order: seq<nat>, k: nat, n: nat, its: bool)
    requires g.Valid() && AllIn(g, order) && k <= |order|
  {
    exists i, m, j :: m in g.nodes && Entered(g, order, k, m) && Collide(g, n, i, m, j, its)
  }

  /** The same with a node that has a block of its own contents. */
  ghost predicate CollidesKept(g: Iort, order: seq<nat>, k: nat, n: nat, its: bool)
    requires g.Valid() && AllIn(g, order) && k <= |order|
  {
    exists i, m, j :: m in g.nodes && Entered(g, order, k, m) && Present(g, Listed(g, order, k).owners, m) &&
      Collide(g, n, i, m, j, its)
  }

  /**
   On a run that leaves one block per node, back references only being one such case, a block has a true
   overlap exactly if its node collides with an entered one that was not dropped; and so it says whether its
   node collides with any exactly if it does not collide with dropped ones only.
   */
  lemma {:induction false} FlagsOfWalk(g: Iort, order: seq<nat>, k: nat, x: nat, its: bool)
    requires g.Valid() && RcsApart(g) && TargetsDetermined(g) && AllIn(g, order) && k <= |order|
    requires PmcgsReady(g, order, k) && SingleRun(g, order, k) && ProperMaps(g, Listed(g, order, k).owners)
    requires x < |Listed(g, order, k).owners|
    ensures var n := Listed(g, order, k).owners[x];
            var seen := TrueOverlap(Build(g, order, k).blocks, x, its);
            && (seen <==> CollidesKept(g, order, k, n, its))
            && ((seen <==> CollidesAt(g, order, k, n, its)) <==>
                  (CollidesAt(g, order, k, n, its) ==> CollidesKept(g, order, k, n, its)))
  {
    var blocks, a := Build(g, order, k).blocks, Listed(g, order, k);
    SingleFacts(g, order, k);
    hide Build, Listed, Image, Wired, ProperMaps, PmcgsReady, SingleRun, AllStandIns, TargetsDetermined, Entered,
      JoinedAt, TrueOverlap, Distinct;
    FlagExact(g, blocks, a, x, its);
    if JoinedAt(g, a, x, its) { JoinedIsKept(g, order, k, x, its); }
    if CollidesKept(g, order, k, a.owners[x], its) { KeptIsJoined(g, order, k, x, its); }
    KeptCollides(g, order, k, a.owners[x], its);
    hide CollidesKept, CollidesAt;
  }

  /**
   So, stray hits apart, the pass marks a block on such a run exactly if its node collides with one that was not
   dropped; and exactly if it collides with any node entered, if none that collides is missing.
   */
  lemma {:induction false} WalkMarks(g: Iort, order: seq<nat>, k: nat, over: Overrun, x: nat, its: bool)
    requires g.Valid() && RcsApart(g) && TargetsDetermined(g) && AllIn(g, order) && k <= |order|
    requires PmcgsReady(g, order, k) && SingleRun(g, order, k) && ProperMaps(g, Listed(g, order, k).owners)
    requires x < |Listed(g, order, k).owners|
    ensures var n, blocks := Listed(g, order, k).owners[x], Build(g, order, k).blocks;
            && (Marked(blocks, over, x, its) <==> CollidesKept(g, order, k, n, its) || StrayHit(blocks, over, x, its))
            && (NoneMissing(g, order, k) ==>
                  (Marked(blocks, over, x, its) <==>
                     CollidesAt(g, order, k, n, its) || StrayHit(blocks, over, x, its)))
  {
    hide Build, Listed, ProperMaps, PmcgsReady, SingleRun, TargetsDetermined, Marked, StrayHit, TrueOverlap,
      NoneMissing, CollidesAt, CollidesKept;
    FlagsOfWalk(g, order, k, x, its);
    MarkedExactly(Build(g, order, k).blocks, over, x, its);
    SingleEntered(g, order, k, x);
    if NoneMissing(g, order, k) { NoneMissingKept(g, order, k, Listed(g, order, k).owners[x], its); }
  }

  lemma {:induction false} SingleEntered(g: Iort, order: seq<nat>, k: nat, x: nat)
    requires g.Valid() && AllIn(g, order) && k <= |order| && x < |Listed(g, order, k).owners|
    ensures Listed(g, order, k).owners[x] in g.nodes && Entered(g, order, k, Listed(g, order, k).owners[x])
  {
    hide Listed;
    var i := ListedReached(g, order, k, x);
  }

  lemma {:induction false} NoneMissingKept(g: Iort, order: seq<nat>, k: nat, n: nat, its: bool)
    requires g.Valid() && AllIn(g, order) && k <= |order| && NoneMissing(g, order, k)
    requires n in g.nodes && Entered(g, order, k, n)
    ensures CollidesAt(g, order, k, n, its) ==> CollidesKept(g, order, k, n, its)
  {
    hide Entered, Present, Collide, Listed;
    if i: nat, m: nat, j: nat :| m in g.nodes && Entered(g, order, k, m) && Collide(g, n, i, m, j, its) {
      CollideSym(g, n, i, m, j, its);
      assert Colliding(g, order, k, m);
    }
  }

  lemma {:induction false} KeptCollides(g: Iort, order: seq<nat>, k: nat, n: nat, its: bool)
    requires g.Valid() && AllIn(g, order) && k <= |order|
    ensures CollidesKept(g, order, k, n, its) ==> CollidesAt(g, order, k, n, its)
  {
    hide Entered, Present, Collide, Listed;
  }

  lemma {:induction false} JoinedIsKept(g: Iort, order: seq<nat>, k: nat, x: nat, its: bool)
    requires g.Valid() && TargetsDetermined(g) && AllIn(g, order) && k <= |order|
    requires AllStandIns(g, Listed(g, order, k)) && Distinct(g, Listed(g, order, k).owners)
    requires forall y {:trigger Listed(g, order, k).owners[y]} :: 0 <= y < |Listed(g, order, k).owners| ==>
               var o := Listed(g, order, k).owners[y];
               o in g.nodes && Entered(g, order, k, o)
    requires x < |Listed(g, order, k).owners| && JoinedAt(g, Listed(g, order, k), x, its)
    ensures CollidesKept(g, order, k, Listed(g, order, k).owners[x], its)
  {
    hide Listed, AllStandIns, Distinct, TargetsDetermined, Entered, Joined, Collide;
    var a := Listed(g, order, k);
    var i: nat, y: nat, j: nat :| Joined(g, a, x, i, y, j, its);
    JoinedCollide(g, a, x, i, y, j, its);
    assert a.owners[y] in g.nodes && Entered(g, order, k, a.owners[y]);
    assert Present(g, a.owners, a.owners[y]);
  }

  lemma {:induction false} KeptIsJoined(g: Iort, order: seq<nat>, k: nat, x: nat, its: bool)
    requires g.Valid() && TargetsDetermined(g) && AllIn(g, order) && k <= |order|
    requires AllStandIns(g, Listed(g, order, k)) && Distinct(g, Listed(g, order, k).owners)
    requires forall y {:trigger Listed(g, order, k).owners[y]} :: 0 <= y < |Listed(g, order, k).owners| ==>
               Listed(g, order, k).owners[y] in g.nodes
    requires x < |Listed(g, order, k).owners| && CollidesKept(g, order, k, Listed(g, order, k).owners[x], its)
    ensures JoinedAt(g, Listed(g, order, k), x, its)
  {
    hide Listed, AllStandIns, Distinct, TargetsDetermined, Entered, Collide, JoinedAt;
    var a := Listed(g, order, k);
    var i: nat, m: nat, j: nat :| m in g.nodes && Present(g, a.owners, m) && Collide(g, a.owners[x], i, m, j, its);
    SaysIsPresent(g, a.owners, m);
    var y: nat :| Says(g, a.owners, y, m);
    CollideJoined(g, a, x, i, y, m, j, its);
  }

  lemma {:induction false} JoinedCollide(g: Iort, a: Names, x: nat, k: nat, y: nat, j: nat, its: bool)
    requires g.Valid() && TargetsDetermined(g) && AllStandIns(g, a) && Distinct(g, a.owners)
    requires forall i :: 0 <= i < |a.owners| ==> a.owners[i] in g.nodes
    requires Joined(g, a, x, k, y, j, its)
    ensures x < |a.owners| && y < |a.owners| && Collide(g, a.owners[x], k, a.owners[y], j, its)
  {
    hide AllStandIns, TargetsDetermined, SharesId;
    OneBlock(g, a, x, k, y, j);
    StandInKind(g, a, x, k);
    assert x != y ==> g.At(a.owners[x]) != g.At(a.owners[y]);
  }

  lemma {:induction false} CollideJoined(g: Iort, a: Names, x: nat, k: nat, y: nat, m: nat, j: nat, its: bool)
    requires g.Valid() && TargetsDetermined(g) && AllStandIns(g, a) && Distinct(g, a.owners)
    requires forall i :: 0 <= i < |a.owners| ==> a.owners[i] in g.nodes
    requires x < |a.owners| && Says(g, a.owners, y, m) && Collide(g, a.owners[x], k, m, j, its)
    ensures JoinedAt(g, a, x, its)
  {
    assert StandIns(g, a, x) && StandIns(g, a, y);
    assert StandIn(g, a, a.links[x][k], g.At(a.owners[x]).Maps()[k].outputRef);
    assert StandIn(g, a, a.links[y][j], g.At(a.owners[y]).Maps()[j].outputRef);
    hide AllStandIns, TargetsDetermined, SharesId, Stands, StandIns, Distinct;
    OneBlock(g, a, x, k, y, j);
    StandInKind(g, a, x, k);
    assert Joined(g, a, x, k, y, j, its);
  }
}
