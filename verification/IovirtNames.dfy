/**
 Which blocks a walk over the IORT leaves, read off the nodes alone: no block, offset or counter
 occurs here. A list of node offsets says from which node each block was made.
 */
module IovirtNames {
  import opened Iort
  import opened IovirtLayout
  import opened IovirtBuild

  // ------------------------------------------------------------------ nodes that lookups confuse

  /** Their first sixteen characters, zeros behind the end, are the same. */
  predicate SameName(s: string, t: string) { forall c :: 0 <= c < 16 ==> Padded(s, c) == Padded(t, c) }

  /**
   Nodes of one type that agree in what a lookup compares, PMCG references apart. The mappings themselves are
   not compared, only how many there are; of an ITS group every identifier is.
   */
  predicate SameHead(a: Node, b: Node) {
    match a
    case ItsNode(ids) => b.ItsNode? && ids == b.ids
    case NamedNode(name, maps) => b.NamedNode? && SameName(name, b.name) && |maps| == |b.maps|
    case RcNode(segment, cca, ats, maps) =>
      b.RcNode? && segment == b.segment && cca == b.cca && ats == b.ats && |maps| == |b.maps|
    case SmmuNode(base, _, maps) => b.SmmuNode? && base == b.base && |maps| == |b.maps|
    case SmmuV3Node(base, maps) => b.SmmuV3Node? && base == b.base && |maps| == |b.maps|
    case PmcgNode(pageBase, gsiv, _, maps) =>
      b.PmcgNode? && pageBase == b.pageBase && gsiv == b.gsiv && |maps| == |b.maps|
    case BadNode(_) => false
  }

  /** That is when the headers first written for the two nodes compare equal, byte by byte. */
  lemma {:induction false} HeadsCompare(a: Node, b: Node)
    ensures SameHead(a, b) <==> !a.BadNode? && !b.BadNode? && Matches(Head(a, 0), Head(b, 0))
  {
    if a.NamedNode? && b.NamedNode? {
      NamesCompare(a.name, b.name);
      hide Name16, SameName;
    }
  }

  lemma {:induction false} NamesCompare(s: string, t: string)
    ensures SameName(s, t) <==> Name16(s) == Name16(t)
  {
    hide Padded;
    if Name16(s) == Name16(t) {
      forall c | 0 <= c < 16 ensures Padded(s, c) == Padded(t, c) { assert Name16(s)[c] == Name16(t)[c]; }
    }
    if SameName(s, t) {
      forall c | 0 <= c < 16 ensures Name16(s)[c] == Name16(t)[c] { assert Padded(s, c) == Padded(t, c); }
    }
  }

  /** Names of at most sixteen characters, none of them zero, are told apart. */
  lemma {:induction false} ShortNames(s: string, t: string)
    requires |s| <= 16 && |t| <= 16 && '\0' !in s && '\0' !in t
    ensures SameName(s, t) <==> s == t
  {
    if SameName(s, t) {
      assert |s| < 16 ==> Padded(s, |s|) == Padded(t, |s|);
      assert |t| < 16 ==> Padded(s, |t|) == Padded(t, |t|);
      forall c | 0 <= c < |s| ensures s[c] == t[c] { assert Padded(s, c) == Padded(t, c); }
    }
  }

  lemma {:induction false} SameHeadTrans(a: Node, b: Node, c: Node)
    requires SameHead(a, b) && SameHead(b, c)
    ensures SameHead(a, c)
  {}

  /** Equal keys. A PMCG's key holds its node reference, so there the targets must have equal keys too. */
  ghost predicate SameKey(g: Iort, m: nat, n: nat) {
    && SameHead(g.At(m), g.At(n))
    && (g.At(m).PmcgNode? ==> SameHead(g.At(g.At(m).nodeRef), g.At(g.At(n).nodeRef)))
  }

  lemma {:induction false} SameKeySym(g: Iort, m: nat, n: nat)
    requires SameKey(g, m, n)
    ensures SameKey(g, n, m)
  {}

  lemma {:induction false} SameKeyTrans(g: Iort, l: nat, m: nat, n: nat)
    requires SameKey(g, l, m) && SameKey(g, m, n)
    ensures SameKey(g, l, n)
  {
    SameHeadTrans(g.At(l), g.At(m), g.At(n));
    if g.At(l).PmcgNode? {
      SameHeadTrans(g.At(g.At(l).nodeRef), g.At(g.At(m).nodeRef), g.At(g.At(n).nodeRef));
    }
  }

  /** Base address of the SMMU behind the first j mappings: the last of them decides. */
  function SmmuBehind(g: Iort, node: Node, j: nat): nat
    requires j <= |node.Maps()|
  {
    if j == 0 then 0
    else
      var t := g.At(node.Maps()[j - 1].outputRef);
      if t.IsSmmu() then t.base else 0
  }

  /** An RC behind an SMMU records the SMMU's base, so its header never compares equal again. */
  ghost predicate Recognisable(g: Iort, n: nat) {
    g.At(n).RcNode? ==> SmmuBehind(g, g.At(n), |g.At(n).Maps()|) == 0
  }

  /** Once node m has its block, a lookup for node n takes it. */
  ghost predicate LookAlike(g: Iort, m: nat, n: nat) { SameKey(g, m, n) && Recognisable(g, m) }

  /**
   What looks like one of two nodes with equal keys looks like the other, and only they have such a lookalike
   in common.
   */
  lemma {:induction false} LookAlikeKey(g: Iort, o: nat, s: nat, t: nat)
    ensures LookAlike(g, o, s) && LookAlike(g, o, t) ==> SameKey(g, s, t)
    ensures SameKey(g, s, t) ==> (LookAlike(g, o, s) <==> LookAlike(g, o, t))
  {
    hide SameKey;
    if SameKey(g, o, s) && SameKey(g, o, t) {
      SameKeySym(g, o, s);
      SameKeyTrans(g, s, o, t);
    }
    if SameKey(g, s, t) {
      SameKeySym(g, s, t);
      if SameKey(g, o, s) { SameKeyTrans(g, o, s, t); }
      if SameKey(g, o, t) { SameKeyTrans(g, o, t, s); }
    }
  }

  /** A block made from node o stands for node n: it was made for n, or taken for it. */
  ghost predicate Stands(g: Iort, o: nat, n: nat) {
    SameKey(g, o, n) && (g.At(o) == g.At(n) || Recognisable(g, o))
  }

  /** No root complex is reached from another one of the same key. */
  ghost predicate RcsApart(g: Iort)
    requires g.Valid()
  {
    forall m, n :: m in g.nodes && n in g.nodes && g.nodes[m].RcNode? && SameKey(g, m, n) && g.Reaches(m, n) ==> m == n
  }

  // ------------------------------------------------------------------ the walk on nodes

  /**
   The node each block was made from, the number of the block that each of its mappings filled in so far
   names, and how many blocks are counted.
   */
  datatype NameList = NameList(owners: seq<nat>, links: seq<seq<nat>>, finished: nat)

  type Names = a: NameList | |a.links| == |a.owners| witness NameList([], [], 0)

  const NO_NAMES: Names := NameList([], [], 0)

  ghost predicate Known(g: Iort, a: Names, n: nat) {
    exists i :: 0 <= i < |a.owners| && i < a.finished && LookAlike(g, a.owners[i], n)
  }

  ghost predicate NoneBefore(g: Iort, owner: seq<nat>, x: nat, target: nat)
    requires x <= |owner|
  {
    forall y :: 0 <= y < x ==> !LookAlike(g, owner[y], target)
  }

  /** Block x is counted, and the first that lookups take for n. */
  ghost predicate FirstAlike(g: Iort, a: Names, n: nat, x: nat) {
    x < |a.owners| && x < a.finished && LookAlike(g, a.owners[x], n) && NoneBefore(g, a.owners, x, n)
  }

  /** From block number i on: the first counted block that lookups take for n, or the one laid down next. */
  ghost function PlaceFrom(g: Iort, a: Names, n: nat, i: nat): (x: nat)
    requires i <= |a.owners| && NoneBefore(g, a.owners, i, n)
    ensures x <= |a.owners|
    ensures Known(g, a, n) ==> FirstAlike(g, a, n, x)
    ensures !Known(g, a, n) ==> x == |a.owners|
    decreases |a.owners| - i
  {
    if i >= |a.owners| || i >= a.finished then |a.owners|
    else if LookAlike(g, a.owners[i], n) then i else PlaceFrom(g, a, n, i + 1)
  }

  /** The block that stands in for n if n is entered now. */
  ghost function PlaceOf(g: Iort, a: Names, n: nat): (x: nat)
    ensures x <= |a.owners|
    ensures Known(g, a, n) ==> FirstAlike(g, a, n, x)
    ensures !Known(g, a, n) ==> x == |a.owners|
  {
    PlaceFrom(g, a, n, 0)
  }

  /** One more block, none of its mappings filled in. */
  function Laid(a: Names, n: nat): Names { NameList(a.owners + [n], a.links + [[]], a.finished) }

  /** The next mapping of block k names block x. */
  function Wire(a: Names, k: nat, x: nat): Names
    requires k < |a.links|
  {
    a.(links := a.links[k := a.links[k] + [x]])
  }

  /** Every block of a is kept, with its node and what its mappings name. */
  ghost predicate Keeps(a: Names, r: Names) {
    && |a.owners| <= |r.owners| && r.owners[..|a.owners|] == a.owners && a.finished <= r.finished
    && forall i :: 0 <= i < |a.links| ==> r.links[i] == a.links[i]
  }

  ghost predicate KeepsBut(a: Names, r: Names, k: nat) {
    && |a.owners| <= |r.owners| && r.owners[..|a.owners|] == a.owners && a.finished <= r.finished
    && forall i :: 0 <= i < |a.links| && i != k ==> r.links[i] == a.links[i]
  }

  /** Entering a node: nothing if lookups know it, otherwise one block for it and then what its mappings refer to. */
  ghost function Enter(g: Iort, n: nat, a: Names): (r: Names)
    requires g.Valid() && n in g.nodes
    ensures Keeps(a, r)
    decreases g.Rank(n), 1, 0
  {
    if g.nodes[n].BadNode? || Known(g, a, n) then a
    else
      var f := EnterMaps(g, n, 0, |a.owners|, Laid(a, n));
      assert f.owners[..|a.owners|] == f.owners[..|a.owners| + 1][..|a.owners|];
      f.(finished := f.finished + 1)
  }

  /** Each reference in turn names the block that stands in for its target. */
  ghost function EnterMaps(g: Iort, n: nat, j: nat, k: nat, a: Names): (r: Names)
    requires g.Valid() && n in g.nodes && j <= |g.nodes[n].Maps()| && k < |a.links|
    ensures KeepsBut(a, r, k)
    decreases g.Rank(n), 0, |g.nodes[n].Maps()| - j
  {
    assert g.ValidNode(n);
    if j == |g.nodes[n].Maps()| then a
    else
      var t := g.nodes[n].Maps()[j].outputRef;
      EnterMaps(g, n, j + 1, k, Wire(Enter(g, t, a), k, PlaceOf(g, a, t)))
  }

  ghost predicate AllIn(g: Iort, order: seq<nat>) {
    forall i :: 0 <= i < |order| ==> order[i] in g.nodes
  }

  /** After entering the first k nodes of the order. */
  ghost function Listed(g: Iort, order: seq<nat>, k: nat): Names
    requires g.Valid() && AllIn(g, order) && k <= |order|
  {
    if k == 0 then NO_NAMES else Enter(g, order[k - 1], Listed(g, order, k - 1))
  }

  // ------------------------------------------------------------------ what the walk leaves

  /** A finished walk has counted every block. */
  lemma {:induction false} EnterCounts(g: Iort, n: nat, a: Names)
    requires g.Valid() && n in g.nodes
    ensures var r := Enter(g, n, a); r.finished - a.finished == |r.owners| - |a.owners|
    decreases g.Rank(n), 1, 0
  {
    hide PlaceOf, Known, Keeps;
    if !g.nodes[n].BadNode? && !Known(g, a, n) { EnterMapsCounts(g, n, 0, |a.owners|, Laid(a, n)); }
  }

  lemma {:induction false} EnterMapsCounts(g: Iort, n: nat, j: nat, k: nat, a: Names)
    requires g.Valid() && n in g.nodes && j <= |g.nodes[n].Maps()| && k < |a.links|
    ensures var r := EnterMaps(g, n, j, k, a); r.finished - a.finished == |r.owners| - |a.owners|
    decreases g.Rank(n), 0, |g.nodes[n].Maps()| - j
  {
    hide Enter, PlaceOf;
    assert g.ValidNode(n);
    if j < |g.nodes[n].Maps()| {
      var t := g.nodes[n].Maps()[j].outputRef;
      EnterCounts(g, t, a);
      EnterMapsCounts(g, n, j + 1, k, Wire(Enter(g, t, a), k, PlaceOf(g, a, t)));
    }
  }

  lemma {:induction false} ListedCounts(g: Iort, order: seq<nat>, k: nat)
    requires g.Valid() && AllIn(g, order) && k <= |order|
    ensures Listed(g, order, k).finished == |Listed(g, order, k).owners|
    decreases k
  {
    hide Enter;
    if k > 0 {
      ListedCounts(g, order, k - 1);
      EnterCounts(g, order[k - 1], Listed(g, order, k - 1));
    }
  }

  /** New blocks are made from nodes of known type, reached from the node entered. */
  lemma {:induction false} EnterReached(g: Iort, n: nat, a: Names, i: nat)
    requires g.Valid() && n in g.nodes && |a.owners| <= i < |Enter(g, n, a).owners|
    ensures var o := Enter(g, n, a).owners[i];
            o in g.nodes && !g.nodes[o].BadNode? && !g.nodes[n].BadNode? && g.Reaches(n, o) &&
              (i == |a.owners| ==> o == n)
    decreases g.Rank(n), 1, 0
  {
    hide PlaceOf, Known;
    var laid := Laid(a, n);
    var f := EnterMaps(g, n, 0, |a.owners|, laid);
    assert f.owners[..|laid.owners|][|a.owners|] == n;
    assert g.Reaches(n, n);
    if i > |a.owners| { EnterMapsReached(g, n, 0, |a.owners|, laid, i); }
  }

  ghost predicate ReachedFrom(g: Iort, n: nat, m: nat)
    requires g.Valid()
  {
    n in g.nodes && g.Reaches(n, m)
  }

  lemma {:induction false} EnterMapsReached(g: Iort, n: nat, j: nat, k: nat, a: Names, i: nat)
    requires g.Valid() && n in g.nodes && j <= |g.nodes[n].Maps()| && k < |a.links|
    requires |a.owners| <= i < |EnterMaps(g, n, j, k, a).owners|
    ensures var o := EnterMaps(g, n, j, k, a).owners[i];
            && o in g.nodes && !g.nodes[o].BadNode? && g.Reaches(n, o)
            && exists l :: j <= l < |g.nodes[n].Maps()| && ReachedFrom(g, g.nodes[n].Maps()[l].outputRef, o)
    decreases g.Rank(n), 0, |g.nodes[n].Maps()| - j
  {
    hide Enter, PlaceOf;
    assert g.ValidNode(n);
    var t := g.nodes[n].Maps()[j].outputRef;
    var b := Wire(Enter(g, t, a), k, PlaceOf(g, a, t));
    var r := EnterMaps(g, n, j + 1, k, b);
    if i < |b.owners| {
      EnterReached(g, t, a, i);
      assert r.owners[..|b.owners|][i] == b.owners[i];
    } else {
      EnterMapsReached(g, n, j + 1, k, b, i);
    }
  }

  // ------------------------------------------------------------------ every node walked is represented

  ghost predicate Represented(g: Iort, owners: seq<nat>, n: nat) {
    exists x :: 0 <= x < |owners| && Stands(g, owners[x], n)
  }

  lemma {:induction false} StillRepresented(g: Iort, a: seq<nat>, b: seq<nat>, n: nat)
    requires Represented(g, a, n) && |a| <= |b| && a == b[..|a|]
    ensures Represented(g, b, n)
  {
    var x :| 0 <= x < |a| && Stands(g, a[x], n);
    assert b[x] == b[..|a|][x];
  }

  lemma {:induction false} SelfKey(g: Iort, n: nat)
    requires g.Valid() && n in g.nodes && !g.nodes[n].BadNode?
    ensures SameKey(g, n, n)
  {
    assert g.ValidNode(n);
  }

  /** A node that is entered has the block it is given, and that stands for it. */
  lemma {:induction false} EnterPlaces(g: Iort, n: nat, a: Names)
    requires g.Valid() && n in g.nodes && !g.nodes[n].BadNode?
    ensures var x, r := PlaceOf(g, a, n), Enter(g, n, a);
            && x < |r.owners| && Stands(g, r.owners[x], n)
            && (x < |a.owners| ==> r == a)
            && (x == |a.owners| ==> r.owners[x] == n)
  {
    var r := Enter(g, n, a);
    if !Known(g, a, n) {
      SelfKey(g, n);
      var laid := Laid(a, n);
      assert EnterMaps(g, n, 0, |a.owners|, laid).owners[..|laid.owners|][|a.owners|] == n;
      assert r.owners[|a.owners|] == n;
    }
  }

  lemma {:induction false} EnterRepresents(g: Iort, n: nat, a: Names)
    requires g.Valid() && n in g.nodes && !g.nodes[n].BadNode?
    ensures Represented(g, Enter(g, n, a).owners, n)
  {
    hide Enter, PlaceOf, Stands;
    EnterPlaces(g, n, a);
  }

  /** Every node walked has a block that stands for it. */
  lemma {:induction false} ListedRepresents(g: Iort, order: seq<nat>, k: nat, i: nat)
    requires g.Valid() && AllIn(g, order) && i < k <= |order| && !g.nodes[order[i]].BadNode?
    ensures Represented(g, Listed(g, order, k).owners, order[i])
    decreases k
  {
    hide Enter;
    hide Represented;
    if i == k - 1 {
      EnterRepresents(g, order[i], Listed(g, order, i));
    } else {
      ListedRepresents(g, order, k - 1, i);
      StillRepresented(g, Listed(g, order, k - 1).owners, Listed(g, order, k).owners, order[i]);
    }
  }

  /** The owners of a run are nodes of known type, reached from the nodes of the order. */
  lemma {:induction false} ListedReached(g: Iort, order: seq<nat>, k: nat, x: nat) returns (i: nat)
    requires g.Valid() && AllIn(g, order) && k <= |order| && x < |Listed(g, order, k).owners|
    ensures i < k && !g.nodes[order[i]].BadNode?
    ensures var o := Listed(g, order, k).owners[x];
            o in g.nodes && !g.nodes[o].BadNode? && g.Reaches(order[i], o)
    decreases k
  {
    hide Enter;
    var a := Listed(g, order, k - 1);
    if x < |a.owners| {
      i := ListedReached(g, order, k - 1, x);
      assert Listed(g, order, k).owners[..|a.owners|][x] == a.owners[x];
    } else {
      i := k - 1;
      EnterReached(g, order[i], a, x);
    }
  }

  // ------------------------------------------------------------------ small walks, step by step

  lemma {:induction false} ListedStep(g: Iort, order: seq<nat>, k: nat)
    requires g.Valid() && AllIn(g, order) && k < |order|
    ensures Listed(g, order, k + 1) == Enter(g, order[k], Listed(g, order, k))
  {}

  lemma {:induction false} ListedKept(g: Iort, order: seq<nat>, i: nat, k: nat, x: nat)
    requires g.Valid() && AllIn(g, order) && i <= k <= |order| && x < |Listed(g, order, i).owners|
    ensures x < |Listed(g, order, k).owners| && Listed(g, order, k).owners[x] == Listed(g, order, i).owners[x]
    decreases k
  {
    hide Enter, Listed;
    if i < k {
      ListedKept(g, order, i, k - 1, x);
      ListedStep(g, order, k - 1);
      var a, b := Listed(g, order, k - 1), Listed(g, order, k);
      assert b.owners[..|a.owners|][x] == a.owners[x];
    }
  }

  /** A counted block that looks like n: nothing is added. */
  lemma {:induction false} EnterKnown(g: Iort, a: Names, x: nat, n: nat)
    requires g.Valid() && n in g.nodes && FirstAlike(g, a, n, x)
    ensures Known(g, a, n) && Enter(g, n, a) == a && PlaceOf(g, a, n) == x
  {
    hide PlaceFrom;
    assert FirstAlike(g, a, n, PlaceOf(g, a, n));
  }

  /** A node without mappings that no counted block looks like. */
  lemma {:induction false} EnterLeaf(g: Iort, n: nat, a: Names)
    requires g.Valid() && n in g.nodes && !g.nodes[n].BadNode? && !Known(g, a, n) && g.nodes[n].Maps() == []
    ensures Enter(g, n, a) == Laid(a, n).(finished := a.finished + 1) && PlaceOf(g, a, n) == |a.owners|
  {}

  /** A node with one mapping that no counted block looks like. */
  lemma {:induction false} EnterOne(g: Iort, n: nat, a: Names)
    requires g.Valid() && n in g.nodes && !g.nodes[n].BadNode? && !Known(g, a, n) && |g.nodes[n].Maps()| == 1
    ensures var laid, t := Laid(a, n), g.nodes[n].Maps()[0].outputRef;
            && t in g.nodes && PlaceOf(g, a, n) == |a.owners|
            && var b := Wire(Enter(g, t, laid), |a.owners|, PlaceOf(g, laid, t));
            Enter(g, n, a) == b.(finished := b.finished + 1)
  {
    assert g.ValidNode(n);
    var laid, t, k := Laid(a, n), g.nodes[n].Maps()[0].outputRef, |a.owners|;
    var b := Wire(Enter(g, t, laid), k, PlaceOf(g, laid, t));
    hide PlaceOf, Known;
    assert EnterMaps(g, n, 1, k, b) == b;
    assert EnterMaps(g, n, 0, k, laid) == EnterMaps(g, n, 1, k, b);
  }

  // ------------------------------------------------------------------ which node stands in at a reference

  /** Every mapping of block i names a block that stands for the mapping's target. */
  ghost predicate StandIns(g: Iort, a: Names, i: nat) {
    && i < |a.owners| && |a.links[i]| == |g.At(a.owners[i]).Maps()|
    && forall l {:trigger a.links[i][l]} :: 0 <= l < |a.links[i]| ==>
         StandIn(g, a, a.links[i][l], g.At(a.owners[i]).Maps()[l].outputRef)
  }

  ghost predicate StandIn(g: Iort, a: Names, x: nat, t: nat) { x < |a.owners| && Stands(g, a.owners[x], t) }

  lemma {:induction false} StandInsKept(g: Iort, a: Names, r: Names, k: nat, i: nat)
    requires StandIns(g, a, i) && KeepsBut(a, r, k) && i != k
    ensures StandIns(g, r, i)
  {
    hide Stands;
    forall x | 0 <= x < |a.owners| ensures r.owners[x] == a.owners[x] {
      assert r.owners[..|a.owners|][x] == a.owners[x];
    }
  }

  lemma {:induction false} EnterStandIns(g: Iort, n: nat, a: Names, i: nat)
    requires g.Valid() && n in g.nodes && |a.owners| <= i < |Enter(g, n, a).owners|
    ensures StandIns(g, Enter(g, n, a), i)
    decreases g.Rank(n), 1, 0
  {
    hide PlaceOf, Known, Stands;
    EnterMapsStandIns(g, n, 0, |a.owners|, Laid(a, n), i);
  }

  lemma {:induction false} EnterMapsStandIns(g: Iort, n: nat, j: nat, k: nat, a: Names, i: nat)
    requires g.Valid() && n in g.nodes && j <= |g.nodes[n].Maps()| && k < |a.links| && a.owners[k] == n
    requires FilledIn(g, a, k, j) && (i == k || |a.owners| <= i < |EnterMaps(g, n, j, k, a).owners|)
    ensures StandIns(g, EnterMaps(g, n, j, k, a), i)
    decreases g.Rank(n), 0, |g.nodes[n].Maps()| - j
  {
    hide Enter, PlaceOf, Stands, StandIns, FilledIn;
    assert g.ValidNode(n);
    if j == |g.nodes[n].Maps()| {
      FilledAll(g, a, k);
    } else {
      var t := g.nodes[n].Maps()[j].outputRef;
      var b := Enter(g, t, a);
      var c := Wire(b, k, PlaceOf(g, a, t));
      EnterPlaces(g, t, a);
      FilledNext(g, a, b, k, j, PlaceOf(g, a, t));
      var r := EnterMaps(g, n, j + 1, k, c);
      if |a.owners| <= i < |b.owners| {
        EnterStandIns(g, t, a, i);
        StandInsWired(g, b, k, PlaceOf(g, a, t), i);
        StandInsKept(g, c, r, k, i);
      } else {
        EnterMapsStandIns(g, n, j + 1, k, c, i);
      }
    }
  }

  lemma {:induction false} StandInsWired(g: Iort, b: Names, k: nat, x: nat, i: nat)
    requires k < |b.links| && StandIns(g, b, i) && i != k
    ensures StandIns(g, Wire(b, k, x), i)
  {
    hide Stands;
  }

  /** The first j mappings of block k name blocks that stand for their targets. */
  ghost predicate FilledIn(g: Iort, a: Names, k: nat, j: nat) {
    && k < |a.owners| && j <= |g.At(a.owners[k]).Maps()| && |a.links[k]| == j
    && forall l {:trigger a.links[k][l]} :: 0 <= l < j ==>
         StandIn(g, a, a.links[k][l], g.At(a.owners[k]).Maps()[l].outputRef)
  }

  lemma {:induction false} FilledAll(g: Iort, a: Names, k: nat)
    requires k < |a.owners| && FilledIn(g, a, k, |g.At(a.owners[k]).Maps()|)
    ensures StandIns(g, a, k)
  {
    hide StandIn;
  }

  lemma {:induction false} FilledNext(g: Iort, a: Names, b: Names, k: nat, j: nat, x: nat)
    requires FilledIn(g, a, k, j) && Keeps(a, b) && j < |g.At(a.owners[k]).Maps()|
    requires StandIn(g, b, x, g.At(a.owners[k]).Maps()[j].outputRef)
    ensures FilledIn(g, Wire(b, k, x), k, j + 1)
  {
    hide Stands;
    forall y | 0 <= y < |a.owners| ensures b.owners[y] == a.owners[y] {
      assert b.owners[..|a.owners|][y] == a.owners[y];
    }
    var c := Wire(b, k, x);
    forall l | 0 <= l < j + 1 ensures StandIn(g, c, c.links[k][l], g.At(c.owners[k]).Maps()[l].outputRef) {
      if l < j { assert StandIn(g, a, a.links[k][l], g.At(a.owners[k]).Maps()[l].outputRef); }
    }
  }

  /** After a run every reference of every block has its stand-in. */
  lemma {:induction false} ListedStandIns(g: Iort, order: seq<nat>, k: nat, i: nat)
    requires g.Valid() && AllIn(g, order) && k <= |order| && i < |Listed(g, order, k).owners|
    ensures StandIns(g, Listed(g, order, k), i)
    decreases k
  {
    hide Enter, StandIns;
    var a := Listed(g, order, k - 1);
    if i < |a.owners| {
      ListedStandIns(g, order, k - 1, i);
      StandInsKept(g, a, Listed(g, order, k), |Listed(g, order, k).owners|, i);
    } else {
      EnterStandIns(g, order[k - 1], a, i);
    }
  }

  // ------------------------------------------------------------------ when keys tell nodes apart

  /** A node that lookups take for another one says the same. */
  ghost predicate KeyDetermines(g: Iort) {
    forall m, n :: m in g.nodes && n in g.nodes && LookAlike(g, m, n) ==> g.nodes[m] == g.nodes[n]
  }

  /** The same for the targets of ID mappings only. */
  ghost predicate TargetsDetermined(g: Iort) {
    forall n {:trigger TargetsOf(g, n)} :: n in g.nodes ==> TargetsOf(g, n)
  }

  ghost predicate TargetsOf(g: Iort, n: nat) {
    forall j {:trigger g.At(n).Maps()[j]} :: 0 <= j < |g.At(n).Maps()| ==> Determined(g, g.At(n).Maps()[j].outputRef)
  }

  ghost predicate Determined(g: Iort, t: nat) {
    forall m :: m in g.nodes && LookAlike(g, m, t) ==> g.nodes[m] == g.At(t)
  }

  lemma {:induction false} TargetsFollow(g: Iort)
    requires g.Valid() && KeyDetermines(g)
    ensures TargetsDetermined(g)
  {
    forall n, j | n in g.nodes && 0 <= j < |g.At(n).Maps()|
      ensures Determined(g, g.At(n).Maps()[j].outputRef)
    {
      assert g.ValidNode(n);
    }
  }

  /** No ID mapping leads to a root complex. */
  ghost predicate RcsNeverTargets(g: Iort) {
    forall n {:trigger NoRcTarget(g, n)} :: n in g.nodes ==> NoRcTarget(g, n)
  }

  ghost predicate NoRcTarget(g: Iort, n: nat) {
    forall j {:trigger g.At(n).Maps()[j]} :: 0 <= j < |g.At(n).Maps()| ==> !g.At(g.At(n).Maps()[j].outputRef).RcNode?
  }

  /** Then a root complex is reached only from itself and from PMCGs, and so never from another one. */
  lemma {:induction false} RcReached(g: Iort, n: nat, m: nat)
    requires g.Valid() && RcsNeverTargets(g) && n in g.nodes && m in g.nodes && g.Reaches(n, m)
    requires g.nodes[m].RcNode? && !g.nodes[n].PmcgNode?
    ensures n == m
    decreases g.Rank(n)
  {
    assert g.ValidNode(n) && NoRcTarget(g, n);
    if n != m {
      var j :| 0 <= j < |g.nodes[n].Maps()| && g.Reaches(g.nodes[n].Maps()[j].outputRef, m);
      assert !g.At(g.At(n).Maps()[j].outputRef).RcNode?;
      RcReached(g, g.nodes[n].Maps()[j].outputRef, m);
    }
  }

  lemma {:induction false} NeverTargetsApart(g: Iort)
    requires g.Valid() && RcsNeverTargets(g)
    ensures RcsApart(g)
  {
    forall m, n | m in g.nodes && n in g.nodes && g.nodes[m].RcNode? && SameKey(g, m, n) && g.Reaches(m, n)
      ensures m == n
    {
      RcReached(g, m, n);
    }
  }
}
