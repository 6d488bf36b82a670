/**
 Deduplication: when a run leaves one block per distinct node. Exactly, by a recursion over the nodes;
 and in particular when every reference points back to a node that lookups can recognise, in which case
 the blocks come in the order of first occurrence.
 */
module IovirtDedup {
  import opened Iort
  import opened IovirtBuild
  import opened IovirtNames
  import opened IovirtImage
  import opened IovirtRun
  import opened IovirtEntered

  /** No two blocks were made from nodes that say the same. */
  ghost predicate Distinct(g: Iort, owner: seq<nat>) {
    forall x, y :: 0 <= x < y < |owner| ==> g.At(owner[x]) != g.At(owner[y])
  }

  // ------------------------------------------------------------------ exactly

  /** Entering n makes no second block for any node: where a lookup fails there is no block yet. */
  ghost predicate Single(g: Iort, n: nat, a: Names)
    requires g.Valid() && n in g.nodes
    decreases g.Rank(n), 1, 0
  {
    || g.nodes[n].BadNode? || Known(g, a, n)
    || (NoneSays(g, a.owners, g.nodes[n]) && SingleMaps(g, n, 0, |a.owners|, Laid(a, n)))
  }

  ghost predicate SingleMaps(g: Iort, n: nat, j: nat, k: nat, a: Names)
    requires g.Valid() && n in g.nodes && j <= |g.nodes[n].Maps()| && k < |a.links|
    decreases g.Rank(n), 0, |g.nodes[n].Maps()| - j
  {
    assert g.ValidNode(n);
    j == |g.nodes[n].Maps()| ||
    var t := g.nodes[n].Maps()[j].outputRef;
    Single(g, t, a) && SingleMaps(g, n, j + 1, k, Wire(Enter(g, t, a), k, PlaceOf(g, a, t)))
  }

  ghost predicate NoneSays(g: Iort, owner: seq<nat>, node: Node) {
    forall x :: 0 <= x < |owner| ==> g.At(owner[x]) != node
  }

  ghost predicate SingleRun(g: Iort, order: seq<nat>, k: nat)
    requires g.Valid() && AllIn(g, order) && k <= |order|
  {
    k == 0 || (SingleRun(g, order, k - 1) && Single(g, order[k - 1], Listed(g, order, k - 1)))
  }

  lemma {:induction false} DistinctPrefix(g: Iort, a: seq<nat>, b: seq<nat>)
    requires |a| <= |b| && a == b[..|a|] && Distinct(g, b)
    ensures Distinct(g, a)
  {
    assert forall x :: 0 <= x < |a| ==> a[x] == b[..|a|][x];
  }

  lemma {:induction false} DistinctPush(g: Iort, a: seq<nat>, n: nat)
    requires Distinct(g, a)
    ensures Distinct(g, a + [n]) <==> NoneSays(g, a, g.At(n))
  {
    var b := a + [n];
    assert b[|a|] == n && forall x :: 0 <= x < |a| ==> b[x] == a[x];
    if Distinct(g, b) {
      forall x | 0 <= x < |a| ensures g.At(a[x]) != g.At(n) { assert g.At(b[x]) != g.At(b[|a|]); }
    }
  }

  lemma {:induction false} SingleIff(g: Iort, n: nat, a: Names)
    requires g.Valid() && n in g.nodes && Distinct(g, a.owners)
    ensures Distinct(g, Enter(g, n, a).owners) <==> Single(g, n, a)
    decreases g.Rank(n), 1, 0
  {
    hide Distinct, NoneSays;
    if !g.nodes[n].BadNode? && !Known(g, a, n) {
      var k, laid := |a.owners|, Laid(a, n);
      DistinctPush(g, a.owners, n);
      if Distinct(g, laid.owners) {
        SingleMapsIff(g, n, 0, k, laid);
      } else if Distinct(g, EnterMaps(g, n, 0, k, laid).owners) {
        DistinctPrefix(g, laid.owners, EnterMaps(g, n, 0, k, laid).owners);
      }
    }
  }

  lemma {:induction false} SingleMapsIff(g: Iort, n: nat, j: nat, k: nat, a: Names)
    requires g.Valid() && n in g.nodes && j <= |g.nodes[n].Maps()| && k < |a.links| && Distinct(g, a.owners)
    ensures Distinct(g, EnterMaps(g, n, j, k, a).owners) <==> SingleMaps(g, n, j, k, a)
    decreases g.Rank(n), 0, |g.nodes[n].Maps()| - j
  {
    hide Distinct, Enter, Single, PlaceOf;
    assert g.ValidNode(n);
    if j < |g.nodes[n].Maps()| {
      var t := g.nodes[n].Maps()[j].outputRef;
      var b := Wire(Enter(g, t, a), k, PlaceOf(g, a, t));
      SingleIff(g, t, a);
      if Distinct(g, b.owners) {
        SingleMapsIff(g, n, j + 1, k, b);
      } else if Distinct(g, EnterMaps(g, n, j + 1, k, b).owners) {
        DistinctPrefix(g, b.owners, EnterMaps(g, n, j + 1, k, b).owners);
      }
    }
  }

  lemma {:induction false} RunSingleIff(g: Iort, order: seq<nat>, k: nat)
    requires g.Valid() && AllIn(g, order) && k <= |order|
    ensures Distinct(g, Listed(g, order, k).owners) <==> SingleRun(g, order, k)
    decreases k
  {
    hide Enter, Single;
    if k > 0 {
      RunSingleIff(g, order, k - 1);
      var a := Listed(g, order, k - 1);
      if Distinct(g, a.owners) {
        SingleIff(g, order[k - 1], a);
      } else if Distinct(g, Listed(g, order, k).owners) {
        DistinctPrefix(g, a.owners, Listed(g, order, k).owners);
      }
    }
  }

  /** The finished table has one block per node exactly if no lookup of the run misses a block that is there. */
  lemma {:induction false} OneBlockPerNodeIff(g: Iort, order: seq<nat>, k: nat)
    requires g.Valid() && RcsApart(g) && AllIn(g, order) && k <= |order| && PmcgsReady(g, order, k)
    ensures Listing(g, Build(g, order, k), Listed(g, order, k), {})
    ensures Distinct(g, Listed(g, order, k).owners) <==> SingleRun(g, order, k)
  {
    RunImage(g, order, k);
    RunSingleIff(g, order, k);
  }

  // ------------------------------------------------------------------ references that point back

  /** One of the first k nodes of the order says what t says. */
  ghost predicate Seen(g: Iort, order: seq<nat>, k: nat, t: nat)
    requires AllIn(g, order) && k <= |order| && t in g.nodes
  {
    exists i :: 0 <= i < k && g.nodes[order[i]] == g.nodes[t]
  }

  ghost predicate BackRef(g: Iort, order: seq<nat>, k: nat, t: nat)
    requires g.Valid() && AllIn(g, order) && k <= |order|
  {
    t in g.nodes && Seen(g, order, k, t) && Recognisable(g, t)
  }

  /** Node k refers only to nodes before it, and if it repeats one it is not an RC behind an SMMU. */
  ghost predicate OrderlyAt(g: Iort, order: seq<nat>, k: nat)
    requires g.Valid() && AllIn(g, order) && k < |order|
  {
    var n := order[k];
    && (g.nodes[n].PmcgNode? ==> BackRef(g, order, k, g.nodes[n].nodeRef))
    && (forall j {:trigger g.nodes[n].Maps()[j]} :: 0 <= j < |g.nodes[n].Maps()| ==>
      BackRef(g, order, k, g.nodes[n].Maps()[j].outputRef))
    && (Seen(g, order, k, n) ==> Recognisable(g, n))
  }

  ghost predicate Orderly(g: Iort, order: seq<nat>, k: nat)
    requires g.Valid() && AllIn(g, order) && k <= |order|
  {
    k == 0 || (Orderly(g, order, k - 1) && OrderlyAt(g, order, k - 1))
  }

  /** The first k nodes of the order without repetitions and without nodes of unknown type. */
  ghost function Firsts(g: Iort, order: seq<nat>, k: nat): (f: seq<nat>)
    requires AllIn(g, order) && k <= |order|
    ensures AllIn(g, f)
  {
    if k == 0 then []
    else
      var f := Firsts(g, order, k - 1);
      if g.nodes[order[k - 1]].BadNode? || Seen(g, order, k - 1, order[k - 1]) then f else f + [order[k - 1]]
  }

  /** Firsts drops no node that could have a block, and says nothing twice. */
  lemma {:induction false} FirstsExact(g: Iort, order: seq<nat>, k: nat, t: nat)
    requires AllIn(g, order) && k <= |order| && t in g.nodes && !g.nodes[t].BadNode?
    ensures Present(g, Firsts(g, order, k), t) <==> Seen(g, order, k, t)
    decreases k
  {
    if k > 0 {
      FirstsExact(g, order, k - 1, t);
      var f, n := Firsts(g, order, k - 1), order[k - 1];
      assert Seen(g, order, k, t) <==> Seen(g, order, k - 1, t) || g.nodes[n] == g.nodes[t];
      if !g.nodes[n].BadNode? && !Seen(g, order, k - 1, n) {
        assert (f + [n])[|f|] == n;
        if x :| 0 <= x < |f| && g.nodes[f[x]] == g.nodes[t] { assert (f + [n])[x] == f[x]; }
      }
    }
  }

  lemma {:induction false} FirstsDistinct(g: Iort, order: seq<nat>, k: nat)
    requires AllIn(g, order) && k <= |order|
    ensures Distinct(g, Firsts(g, order, k))
    decreases k
  {
    if k > 0 {
      FirstsDistinct(g, order, k - 1);
      var f, n := Firsts(g, order, k - 1), order[k - 1];
      if !g.nodes[n].BadNode? && !Seen(g, order, k - 1, n) {
        FirstsExact(g, order, k - 1, n);
        forall x | 0 <= x < |f| ensures g.At(f[x]) != g.At(n) { assert g.nodes[f[x]] != g.nodes[n]; }
        DistinctPush(g, f, n);
      }
    }
  }

  /** The blocks of a are exactly these, all counted. */
  predicate AllOf(a: Names, owners: seq<nat>) { a.owners == owners && a.finished == |owners| }

  /** What lookups know is decided by the owners and the count. */
  lemma {:induction false} KnownSame(g: Iort, a: Names, b: Names, t: nat)
    requires a.owners == b.owners && a.finished == b.finished
    ensures Known(g, a, t) == Known(g, b, t)
  {}

  /** With every target known, a block drags in no other. */
  lemma {:induction false} MapsKnown(g: Iort, n: nat, j: nat, k: nat, a: Names)
    requires g.Valid() && n in g.nodes && j <= |g.nodes[n].Maps()| && k < |a.links|
    requires forall l {:trigger g.nodes[n].Maps()[l]} :: j <= l < |g.nodes[n].Maps()| ==>
             Known(g, a, g.nodes[n].Maps()[l].outputRef)
    ensures EnterMaps(g, n, j, k, a).owners == a.owners && EnterMaps(g, n, j, k, a).finished == a.finished
    decreases |g.nodes[n].Maps()| - j
  {
    hide Known, PlaceOf;
    assert g.ValidNode(n);
    if j < |g.nodes[n].Maps()| {
      var t := g.nodes[n].Maps()[j].outputRef;
      var b := Wire(a, k, PlaceOf(g, a, t));
      assert Enter(g, t, a) == a;
      forall l | j + 1 <= l < |g.nodes[n].Maps()| ensures Known(g, b, g.nodes[n].Maps()[l].outputRef) {
        KnownSame(g, a, b, g.nodes[n].Maps()[l].outputRef);
      }
      MapsKnown(g, n, j + 1, k, b);
    }
  }

  lemma {:induction false} BackKnown(g: Iort, order: seq<nat>, k: nat, a: Names, t: nat)
    requires g.Valid() && AllIn(g, order) && k <= |order| && BackRef(g, order, k, t) && !g.nodes[t].BadNode?
    requires AllOf(a, Firsts(g, order, k))
    ensures Known(g, a, t)
  {
    FirstsExact(g, order, k, t);
    PresentIsKnown(g, a, t);
  }

  lemma {:induction false} UnseenUnknown(g: Iort, order: seq<nat>, k: nat, a: Names, n: nat)
    requires g.Valid() && KeyDetermines(g) && AllIn(g, order) && k <= |order| && AllOf(a, Firsts(g, order, k))
    requires n in g.nodes && !g.nodes[n].BadNode? && !Seen(g, order, k, n)
    ensures !Known(g, a, n)
  {
    var f := Firsts(g, order, k);
    FirstsExact(g, order, k, n);
    forall i | 0 <= i < |f| ensures !LookAlike(g, f[i], n) {}
  }

  lemma {:induction false} KnownLaid(g: Iort, a: Names, n: nat, t: nat)
    requires Known(g, a, t)
    ensures Known(g, Laid(a, n), t)
  {
    var i :| 0 <= i < |a.owners| && i < a.finished && LookAlike(g, a.owners[i], t);
    assert (a.owners + [n])[i] == a.owners[i];
  }

  lemma {:induction false} OrderlyStep(g: Iort, order: seq<nat>, k: nat, a: Names)
    requires g.Valid() && KeyDetermines(g) && AllIn(g, order) && k < |order| && OrderlyAt(g, order, k)
    requires AllOf(a, Firsts(g, order, k))
    ensures AllOf(Enter(g, order[k], a), Firsts(g, order, k + 1))
    ensures g.nodes[order[k]].PmcgNode? ==> Known(g, a, g.nodes[order[k]].nodeRef)
  {
    hide KeyDetermines, Known, Recognisable, Seen;
    var n := order[k];
    assert g.ValidNode(n);
    if g.nodes[n].PmcgNode? { BackKnown(g, order, k, a, g.nodes[n].nodeRef); }
    if !g.nodes[n].BadNode? {
      if Seen(g, order, k, n) {
        BackKnown(g, order, k, a, n);
      } else {
        UnseenUnknown(g, order, k, a, n);
        var laid := Laid(a, n);
        forall l | 0 <= l < |g.nodes[n].Maps()| ensures Known(g, laid, g.nodes[n].Maps()[l].outputRef) {
          BackKnown(g, order, k, a, g.nodes[n].Maps()[l].outputRef);
          KnownLaid(g, a, n, g.nodes[n].Maps()[l].outputRef);
        }
        MapsKnown(g, n, 0, |a.owners|, laid);
      }
    }
  }

  lemma {:induction false} OrderlyListed(g: Iort, order: seq<nat>, k: nat)
    requires g.Valid() && KeyDetermines(g) && AllIn(g, order) && k <= |order| && Orderly(g, order, k)
    ensures AllOf(Listed(g, order, k), Firsts(g, order, k))
    ensures TargetsKnown(g, order, k)
    decreases k
  {
    hide KeyDetermines, Enter, Known, OrderlyAt;
    if k > 0 {
      OrderlyListed(g, order, k - 1);
      OrderlyStep(g, order, k - 1, Listed(g, order, k - 1));
    }
  }

  /**
   With every reference pointing back, every PMCG comes after its target, and the finished table
   holds exactly one faithful block per distinct node, in the order of first occurrence.
   */
  lemma {:induction false} DedupRun(g: Iort, order: seq<nat>, k: nat)
    requires g.Valid() && RcsApart(g) && KeyDetermines(g) && AllIn(g, order) && k <= |order| && Orderly(g, order, k)
    ensures PmcgsReady(g, order, k)
    ensures Listing(g, Build(g, order, k), Listed(g, order, k), {})
    ensures Listed(g, order, k).owners == Firsts(g, order, k)
    ensures Distinct(g, Firsts(g, order, k)) && SingleRun(g, order, k)
  {
    hide KeyDetermines, Orderly, Listing, Distinct, Empty;
    RunSingleIff(g, order, k);
    OrderlyListed(g, order, k);
    AllReadyIffKnown(g, order, k);
    RunImage(g, order, k);
    FirstsDistinct(g, order, k);
  }
}
