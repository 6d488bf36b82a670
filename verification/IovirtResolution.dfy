/**
 Resolution is preserved by the build. Root complexes are entered only by the top-level walk, so
 their blocks keep the order of the IORT and "the last one that serves" means the same in both, save
 for those that lookups take for an earlier one.
 */
module IovirtResolution {
  import opened Iort
  import opened IovirtLayout
  import opened IovirtNames
  import opened IovirtImage
  import opened IovirtRun
  import opened IovirtResolve

  // ------------------------------------------------------------------ the answer as a value

  function FirstIndex(maps: seq<Mapping>, id: u32, from: nat): (j: nat)
    requires from <= |maps|
    ensures from <= j <= |maps|
    ensures j < |maps| ==> Covers(maps[j], id)
    ensures forall i :: from <= i < j ==> !Covers(maps[i], id)
    decreases |maps| - from
  {
    if from == |maps| || Covers(maps[from], id) then from else FirstIndex(maps, id, from + 1)
  }

  /** The root complex that answers, if any does. */
  datatype Server = NoServer | Server(node: Node)

  ghost function LastServer(s: seq<Node>, n: nat, seg: u32, rid: u32): (r: Server)
    requires n <= |s|
    ensures r.Server? ==> Serves(r.node, seg, rid)
  {
    if n == 0 then NoServer
    else if Serves(s[n - 1], seg, rid) then Server(s[n - 1])
    else LastServer(s, n - 1, seg, rid)
  }

  /** Its first mapping that takes the requester, and the SMMU behind that. */
  ghost function AnswerOf(g: Iort, r: Server, seg: u32, rid: u32): nat
    requires r.Server? ==> Serves(r.node, seg, rid)
  {
    match r
    case NoServer => NOT_FOUND
    case Server(node) => SmmuBaseFor(g, node.maps[FirstIndex(node.maps, rid, 0)], rid)
  }

  ghost function Answer(g: Iort, s: seq<Node>, seg: u32, rid: u32): nat {
    AnswerOf(g, LastServer(s, |s|, seg, rid), seg, rid)
  }

  lemma {:induction false} ServerNone(s: seq<Node>, n: nat, seg: u32, rid: u32)
    requires n <= |s| && forall i :: 0 <= i < n ==> !Serves(s[i], seg, rid)
    ensures LastServer(s, n, seg, rid) == NoServer
    decreases n
  {
    if n > 0 { ServerNone(s, n - 1, seg, rid); }
  }

  lemma {:induction false} ServerLast(s: seq<Node>, n: nat, i: nat, seg: u32, rid: u32)
    requires i < n <= |s| && Serves(s[i], seg, rid) && forall l :: i < l < n ==> !Serves(s[l], seg, rid)
    ensures LastServer(s, n, seg, rid) == Server(s[i])
    decreases n
  {
    if i < n - 1 { ServerLast(s, n - 1, i, seg, rid); }
  }

  lemma {:induction false} FindLast(s: seq<Node>, n: nat, seg: u32, rid: u32) returns (i: nat)
    requires n <= |s| && exists l :: 0 <= l < n && Serves(s[l], seg, rid)
    ensures i < n && Serves(s[i], seg, rid) && forall l :: i < l < n ==> !Serves(s[l], seg, rid)
    decreases n
  {
    if Serves(s[n - 1], seg, rid) { i := n - 1; } else { i := FindLast(s, n - 1, seg, rid); }
  }

  /** Answer is the value of Resolves, and the only one. */
  lemma {:induction false} ResolvesIffAnswer(g: Iort, s: seq<Node>, seg: u32, rid: u32, ans: nat)
    ensures Resolves(g, s, seg, rid, ans) <==> ans == Answer(g, s, seg, rid)
  {
    var a := Answer(g, s, seg, rid);
    if exists i :: 0 <= i < |s| && Serves(s[i], seg, rid) {
      var i := FindLast(s, |s|, seg, rid);
      ServerLast(s, |s|, i, seg, rid);
      assert LastServing(s, seg, rid, i);
      assert FirstCover(s[i].maps, rid, FirstIndex(s[i].maps, rid, 0));
    } else {
      ServerNone(s, |s|, seg, rid);
    }
    assert Resolves(g, s, seg, rid, a);
    if Resolves(g, s, seg, rid, ans) { ResolvesUnique(g, s, seg, rid, ans, a); }
  }

  // ------------------------------------------------------------------ the answer of the table

  /** Number of the last of the first n nodes that serves the requester; n if none does. */
  ghost function LastIndex(s: seq<Node>, n: nat, seg: u32, rid: u32): (i: nat)
    requires n <= |s|
    ensures i <= n && (i < n ==> Serves(s[i], seg, rid)) && forall l :: i < l < n ==> !Serves(s[l], seg, rid)
    ensures i == n ==> forall l :: 0 <= l < n ==> !Serves(s[l], seg, rid)
  {
    if n == 0 then 0
    else if Serves(s[n - 1], seg, rid) then n - 1
    else
      var i := LastIndex(s, n - 1, seg, rid);
      if i == n - 1 then n else i
  }

  ghost predicate AllStandIns(g: Iort, a: Names) {
    forall i {:trigger StandIns(g, a, i)} :: 0 <= i < |a.owners| ==> StandIns(g, a, i)
  }

  /** Where resolution on the blocks ends: the mapping it follows, and the node that stands in for its target. */
  datatype Route = NoRoute | Route(standIn: nat, m: Mapping)

  ghost function RouteOf(g: Iort, a: Names, seg: u32, rid: u32): (r: Route)
    requires AllStandIns(g, a)
    ensures r.Route? ==> Stands(g, r.standIn, r.m.outputRef)
  {
    var s := Contents(g, a.owners, |a.owners|);
    var i := LastIndex(s, |s|, seg, rid);
    if i == |s| then NoRoute
    else
      var j := FirstIndex(s[i].maps, rid, 0);
      assert StandIns(g, a, i);
      assert StandIn(g, a, a.links[i][j], g.At(a.owners[i]).Maps()[j].outputRef);
      Route(a.owners[a.links[i][j]], s[i].maps[j])
  }

  /** The base of the node standing in. */
  ghost function NamedAnswer(g: Iort, a: Names, seg: u32, rid: u32): nat
    requires AllStandIns(g, a)
  {
    match RouteOf(g, a, seg, rid)
    case NoRoute => NOT_FOUND
    case Route(o, m) => BaseVia(g, o, m, rid)
  }

  /** The node standing in at the mapping that answers agrees with that mapping's target. */
  ghost predicate RouteAgrees(g: Iort, a: Names, seg: u32, rid: u32)
    requires AllStandIns(g, a)
  {
    var r := RouteOf(g, a, seg, rid);
    r.Route? ==> Agrees(g, r.standIn, r.m, rid)
  }

  lemma {:induction false} LastIsServer(s: seq<Node>, n: nat, seg: u32, rid: u32)
    requires n <= |s|
    ensures var i := LastIndex(s, n, seg, rid);
            LastServer(s, n, seg, rid) == if i == n then NoServer else Server(s[i])
    decreases n
  {
    if n > 0 { LastIsServer(s, n - 1, seg, rid); }
  }

  /** It is what resolution on the nodes behind the blocks says exactly if those two agree. */
  lemma {:induction false} NamedAgrees(g: Iort, a: Names, seg: u32, rid: u32)
    requires AllStandIns(g, a)
    ensures NamedAnswer(g, a, seg, rid) == Answer(g, Contents(g, a.owners, |a.owners|), seg, rid) <==>
            RouteAgrees(g, a, seg, rid)
  {
    var s := Contents(g, a.owners, |a.owners|);
    LastIsServer(s, |s|, seg, rid);
    var r := RouteOf(g, a, seg, rid);
    if r.Route? { StandInAnswers(g, r.standIn, r.m, rid); }
    hide Agrees, BaseVia, Stands, LastServer, LastIndex, FirstIndex, Contents, AllStandIns;
  }

  /** The query on a faithful table answers with the base of the node standing in, and nothing else. */
  lemma {:induction false} ResolutionOnImage(g: Iort, blocks: seq<Block>, a: Names, seg: u32, rid: u32, ans: nat)
    requires Image(g, blocks, a.owners, {}) && Wired(blocks, a.links) && AllStandIns(g, a)
    ensures TableAnswers(blocks, seg, rid, ans) <==> ans == NamedAnswer(g, a, seg, rid)
  {
    var s := Contents(g, a.owners, |a.owners|);
    forall i | 0 <= i < |blocks|
      ensures BlockServes(blocks[i], seg, rid) <==> Serves(s[i], seg, rid)
    {
      ServesSame(g, blocks, a.owners, i, seg, rid);
    }
    var i := LastIndex(s, |s|, seg, rid);
    assert |s| == |blocks|;
    hide Contents, LastIndex, Image, Wired, Serves, BlockServes, AllStandIns;
    if i < |s| {
      assert StandIns(g, a, i);
      var j := FirstIndex(s[i].maps, rid, 0);
      FirstSame(g, blocks, a.owners, i, rid, j);
      BehindIs(g, blocks, a, i, j, rid, ans);
      hide BaseBehind, BaseVia, Takes, StandIns;
      assert LastBlockServing(blocks, |blocks|, seg, rid, i);
      OneRoute(blocks, seg, rid, i, j, ans);
    }
  }

  lemma {:induction false} FirstSame(g: Iort, blocks: seq<Block>, owner: seq<nat>, i: nat, rid: u32, j: nat)
    requires Image(g, blocks, owner, {}) && i < |blocks| && g.At(owner[i]).RcNode?
    requires j == FirstIndex(g.At(owner[i]).maps, rid, 0) < |g.At(owner[i]).maps|
    ensures FirstTaking(blocks[i].maps, rid, j)
  {
    TakesAsCovers(g, blocks, owner, i);
    hide Takes, Covers, Image;
    forall l | 0 <= l < j ensures !Takes(blocks[i].maps[l], rid) {
      assert !Covers(g.At(owner[i]).Maps()[l], rid);
    }
  }

  // ------------------------------------------------------------------ only root complexes matter

  /** The root complexes among the first n nodes, in order. */
  ghost function RcsOf(s: seq<Node>, n: nat): seq<Node>
    requires n <= |s|
  {
    if n == 0 then [] else if s[n - 1].RcNode? then RcsOf(s, n - 1) + [s[n - 1]] else RcsOf(s, n - 1)
  }

  lemma {:induction false} ServerExtends(s: seq<Node>, t: seq<Node>, n: nat, seg: u32, rid: u32)
    requires n <= |s| && n <= |t| && forall i :: 0 <= i < n ==> s[i] == t[i]
    ensures LastServer(s, n, seg, rid) == LastServer(t, n, seg, rid)
    decreases n
  {
    if n > 0 { ServerExtends(s, t, n - 1, seg, rid); }
  }

  lemma {:induction false} ServerOfRcs(s: seq<Node>, n: nat, seg: u32, rid: u32)
    requires n <= |s|
    ensures LastServer(RcsOf(s, n), |RcsOf(s, n)|, seg, rid) == LastServer(s, n, seg, rid)
    decreases n
  {
    if n > 0 {
      ServerOfRcs(s, n - 1, seg, rid);
      var r := RcsOf(s, n - 1);
      if s[n - 1].RcNode? { ServerExtends(r, r + [s[n - 1]], |r|, seg, rid); }
    }
  }

  lemma {:induction false} RcsOfSame(s: seq<Node>, t: seq<Node>, n: nat)
    requires n <= |s| && n <= |t| && forall i :: 0 <= i < n ==> s[i] == t[i]
    ensures RcsOf(s, n) == RcsOf(t, n)
    decreases n
  {
    if n > 0 { RcsOfSame(s, t, n - 1); }
  }

  lemma {:induction false} RcsOfNoMore(s: seq<Node>, k: nat, n: nat)
    requires k <= n <= |s| && forall i :: k <= i < n ==> !s[i].RcNode?
    ensures RcsOf(s, n) == RcsOf(s, k)
    decreases n
  {
    if k < n { RcsOfNoMore(s, k, n - 1); }
  }

  // ------------------------------------------------------------------ the order of RC blocks

  /** No node before number i is one that lookups take for it. */
  ghost predicate RecordedAt(g: Iort, order: seq<nat>, i: nat)
    requires i < |order|
  {
    forall j :: 0 <= j < i ==> !LookAlike(g, order[j], order[i])
  }

  /** The root complexes of the order that the table records. */
  ghost function RecordedRcs(g: Iort, order: seq<nat>, k: nat): seq<Node>
    requires k <= |order|
  {
    if k == 0 then []
    else if g.At(order[k - 1]).RcNode? && RecordedAt(g, order, k - 1)
      then RecordedRcs(g, order, k - 1) + [g.At(order[k - 1])]
    else RecordedRcs(g, order, k - 1)
  }

  /** Of the blocks that entering a node adds, only the first can be an RC's. */
  lemma {:induction false} NewRcs(g: Iort, n: nat, a: Names)
    requires g.Valid() && RcsNeverTargets(g) && n in g.nodes
    ensures forall i :: |a.owners| < i < |Enter(g, n, a).owners| ==> !g.At(Enter(g, n, a).owners[i]).RcNode?
  {
    var laid := Laid(a, n);
    assert g.ValidNode(n) && NoRcTarget(g, n);
    forall i | |a.owners| < i < |Enter(g, n, a).owners|
      ensures !g.At(Enter(g, n, a).owners[i]).RcNode?
    {
      EnterMapsReached(g, n, 0, |a.owners|, laid, i);
      var o := Enter(g, n, a).owners[i];
      var l :| 0 <= l < |g.nodes[n].Maps()| && ReachedFrom(g, g.nodes[n].Maps()[l].outputRef, o);
      assert !g.At(g.At(n).Maps()[l].outputRef).RcNode?;
      if g.At(o).RcNode? { RcReached(g, g.nodes[n].Maps()[l].outputRef, o); }
    }
  }

  /** An RC with a block is a node of the order. */
  lemma {:induction false} RcOwner(g: Iort, order: seq<nat>, k: nat, x: nat) returns (i: nat)
    requires g.Valid() && RcsNeverTargets(g) && AllIn(g, order) && k <= |order|
    requires x < |Listed(g, order, k).owners| && g.At(Listed(g, order, k).owners[x]).RcNode?
    ensures i < k && order[i] == Listed(g, order, k).owners[x]
    decreases k
  {
    hide Enter, RcsNeverTargets;
    var a := Listed(g, order, k - 1);
    if x < |a.owners| {
      assert Listed(g, order, k).owners[..|a.owners|][x] == a.owners[x];
      i := RcOwner(g, order, k - 1, x);
    } else {
      NewRcs(g, order[k - 1], a);
      EnterReached(g, order[k - 1], a, x);
      i := k - 1;
    }
  }

  /** Lookups know an RC exactly if a node before it in the order looks like it. */
  lemma {:induction false} RcKnownIff(g: Iort, order: seq<nat>, k: nat, n: nat)
    requires g.Valid() && RcsNeverTargets(g) && AllIn(g, order) && k <= |order| && n in g.nodes && g.nodes[n].RcNode?
    ensures Known(g, Listed(g, order, k), n) <==> exists j :: 0 <= j < k && LookAlike(g, order[j], n)
  {
    var a := Listed(g, order, k);
    hide Enter, RcsNeverTargets;
    if Known(g, a, n) {
      var x :| 0 <= x < |a.owners| && x < a.finished && LookAlike(g, a.owners[x], n);
      var i := RcOwner(g, order, k, x);
      assert LookAlike(g, order[i], n);
    }
    if j :| 0 <= j < k && LookAlike(g, order[j], n) {
      ListedRepresents(g, order, k, j);
      ListedCounts(g, order, k);
      var x :| 0 <= x < |a.owners| && Stands(g, a.owners[x], order[j]);
      StandsLooks(g, a.owners[x], order[j], n);
    }
  }

  lemma {:induction false} StandsLooks(g: Iort, o: nat, m: nat, n: nat)
    requires Stands(g, o, m) && LookAlike(g, m, n)
    ensures LookAlike(g, o, n)
  {
    SameKeyTrans(g, o, m, n);
  }

  /** Read off the IORT, which RC blocks the table has and in which order. */
  lemma {:induction false} ListedRcs(g: Iort, order: seq<nat>, k: nat)
    requires g.Valid() && RcsNeverTargets(g) && AllIn(g, order) && k <= |order|
    ensures var o := Listed(g, order, k).owners;
            RcsOf(Contents(g, o, |o|), |o|) == RecordedRcs(g, order, k)
    decreases k
  {
    hide RcsNeverTargets, RecordedAt, Known, Enter;
    if k > 0 {
      ListedRcs(g, order, k - 1);
      RcsStep(g, order, k - 1);
      hide *;
    }
  }

  lemma {:induction false} RcsStep(g: Iort, order: seq<nat>, k: nat)
    requires g.Valid() && RcsNeverTargets(g) && AllIn(g, order) && k < |order|
    requires var o := Listed(g, order, k).owners;
             RcsOf(Contents(g, o, |o|), |o|) == RecordedRcs(g, order, k)
    ensures var o := Listed(g, order, k + 1).owners;
            RcsOf(Contents(g, o, |o|), |o|) == RecordedRcs(g, order, k + 1)
  {
    var n, a := order[k], Listed(g, order, k);
    EnterRcs(g, n, a);
    if g.nodes[n].RcNode? { RcKnownIff(g, order, k, n); }
    hide LookAlike, Enter, Known, RcsOf, Contents, RcsNeverTargets;
  }

  /** Entering a node appends it to the RCs if it is one and is not known. */
  lemma {:induction false} EnterRcs(g: Iort, n: nat, a: Names)
    requires g.Valid() && RcsNeverTargets(g) && n in g.nodes
    ensures var o, p := a.owners, Enter(g, n, a).owners;
            var rcs := RcsOf(Contents(g, o, |o|), |o|);
            RcsOf(Contents(g, p, |p|), |p|) == if g.nodes[n].RcNode? && !Known(g, a, n) then rcs + [g.nodes[n]] else rcs
  {
    var b := Enter(g, n, a);
    var s, t := Contents(g, a.owners, |a.owners|), Contents(g, b.owners, |b.owners|);
    NewRcs(g, n, a);
    forall i | 0 <= i < |s| ensures t[i] == s[i] { assert b.owners[i] == b.owners[..|s|][i]; }
    RcsOfSame(s, t, |s|);
    if !g.nodes[n].BadNode? && !Known(g, a, n) {
      var laid := Laid(a, n);
      assert b.owners[..|laid.owners|] == laid.owners by {
        assert EnterMaps(g, n, 0, |a.owners|, laid).owners[..|laid.owners|] == laid.owners;
      }
      assert t[|s|] == g.nodes[n] by { assert b.owners[|s|] == b.owners[..|laid.owners|][|s|] == n; }
      RcsOfNoMore(t, |s| + 1, |t|);
    }
  }

  // ------------------------------------------------------------------ the whole run

  /** The table's RC blocks are those recorded, in the order of the IORT. */
  lemma {:induction false} RcRun(g: Iort, order: seq<nat>, k: nat)
    requires g.Valid() && RcsNeverTargets(g) && AllIn(g, order) && k <= |order| && PmcgsReady(g, order, k)
    ensures Listing(g, Build(g, order, k), Listed(g, order, k), {})
    ensures var o := Listed(g, order, k).owners;
            RcsOf(Contents(g, o, |o|), |o|) == RecordedRcs(g, order, k)
  {
    NeverTargetsApart(g);
    RunImage(g, order, k);
    ListedRcs(g, order, k);
  }

  /** Resolution on the root complexes that the table records. */
  ghost function RecordedAnswer(g: Iort, order: seq<nat>, k: nat, seg: u32, rid: u32): nat
    requires k <= |order|
  {
    Answer(g, RecordedRcs(g, order, k), seg, rid)
  }

  /** Resolution on all nodes of the order. */
  ghost function IortAnswer(g: Iort, order: seq<nat>, k: nat, seg: u32, rid: u32): nat
    requires k <= |order|
  {
    Answer(g, Contents(g, order, k), seg, rid)
  }

  lemma {:induction false} ListedAllStandIns(g: Iort, order: seq<nat>, k: nat)
    requires g.Valid() && AllIn(g, order) && k <= |order|
    ensures AllStandIns(g, Listed(g, order, k))
  {
    hide Listed, StandIns;
    forall i | 0 <= i < |Listed(g, order, k).owners| ensures StandIns(g, Listed(g, order, k), i) {
      ListedStandIns(g, order, k, i);
    }
  }

  /** The answer read off the walk on nodes. */
  ghost function WalkAnswer(g: Iort, order: seq<nat>, k: nat, seg: u32, rid: u32): nat
    requires g.Valid() && AllIn(g, order) && k <= |order|
  {
    ListedAllStandIns(g, order, k);
    NamedAnswer(g, Listed(g, order, k), seg, rid)
  }

  /** On the way to that answer no SMMU stands in for one that it disagrees with about the requester. */
  ghost predicate WalkAgrees(g: Iort, order: seq<nat>, k: nat, seg: u32, rid: u32)
    requires g.Valid() && AllIn(g, order) && k <= |order|
  {
    ListedAllStandIns(g, order, k);
    RouteAgrees(g, Listed(g, order, k), seg, rid)
  }

  /** On every finished table the query has one answer, the one read off the walk. */
  lemma {:induction false} WalkAnswers(g: Iort, order: seq<nat>, k: nat, seg: u32, rid: u32, ans: nat)
    requires g.Valid() && RcsApart(g) && AllIn(g, order) && k <= |order| && PmcgsReady(g, order, k)
    ensures TableAnswers(Build(g, order, k).blocks, seg, rid, ans) <==> ans == WalkAnswer(g, order, k, seg, rid)
  {
    hide Build, Image, Wired, TableAnswers, Listed, PmcgsReady, NamedAnswer, AllStandIns;
    RunImage(g, order, k);
    ListedAllStandIns(g, order, k);
    ResolutionOnImage(g, Build(g, order, k).blocks, Listed(g, order, k), seg, rid, ans);
  }

  /**
   Resolution is preserved: for every segment and requester the answer of the finished table is what Resolves,
   of which Answer is the value, says of the root complexes recorded, if and only if the SMMU standing in at the
   mapping that answers agrees with the one the mapping leads to.
   */
  lemma {:induction false} ResolutionPreserved(g: Iort, order: seq<nat>, k: nat, seg: u32, rid: u32, ans: nat)
    requires g.Valid() && RcsNeverTargets(g)
    requires AllIn(g, order) && k <= |order| && PmcgsReady(g, order, k)
    ensures TableAnswers(Build(g, order, k).blocks, seg, rid, ans) ==>
              (ans == RecordedAnswer(g, order, k, seg, rid) <==> WalkAgrees(g, order, k, seg, rid))
  {
    hide Build, Image, TableAnswers, Resolves, Listed, RcsNeverTargets, PmcgsReady, NamedAnswer, RouteAgrees,
      AllStandIns;
    RcRun(g, order, k);
    NeverTargetsApart(g);
    WalkAnswers(g, order, k, seg, rid, ans);
    var o := Listed(g, order, k).owners;
    var s := Contents(g, o, |o|);
    ListedAllStandIns(g, order, k);
    NamedAgrees(g, Listed(g, order, k), seg, rid);
    ServerOfRcs(s, |s|, seg, rid);
  }

  /** That is so in particular if no node but those that say the same looks like the target of that mapping. */
  lemma {:induction false} DeterminedAgrees(g: Iort, a: Names, seg: u32, rid: u32)
    requires g.Valid() && AllStandIns(g, a) && forall x :: 0 <= x < |a.owners| ==> a.owners[x] in g.nodes
    requires TargetsDetermined(g)
    ensures RouteAgrees(g, a, seg, rid)
  {
    var s := Contents(g, a.owners, |a.owners|);
    var i := LastIndex(s, |s|, seg, rid);
    if i < |s| {
      var j := FirstIndex(s[i].maps, rid, 0);
      assert TargetsOf(g, a.owners[i]) && StandIns(g, a, i);
      assert Determined(g, g.At(a.owners[i]).Maps()[j].outputRef);
      assert StandIn(g, a, a.links[i][j], g.At(a.owners[i]).Maps()[j].outputRef);
      hide TargetsDetermined, TargetsOf, StandIns, AllStandIns, Contents, LastIndex, FirstIndex, SameKey, TakenBy;
      assert g.At(a.owners[a.links[i][j]]) == g.At(s[i].maps[j].outputRef);
    }
  }

  lemma {:induction false} DeterminedWalk(g: Iort, order: seq<nat>, k: nat, seg: u32, rid: u32)
    requires g.Valid() && AllIn(g, order) && k <= |order| && TargetsDetermined(g)
    ensures WalkAgrees(g, order, k, seg, rid)
  {
    hide Listed, AllStandIns, TargetsDetermined, RouteAgrees;
    ListedAllStandIns(g, order, k);
    var a := Listed(g, order, k);
    forall x | 0 <= x < |a.owners| ensures a.owners[x] in g.nodes { var i := ListedReached(g, order, k, x); }
    DeterminedAgrees(g, a, seg, rid);
  }

  // ------------------------------------------------------------------ the IORT's answer in plain integers

  /** A root complex of this segment with a mapping that takes the requester. */
  ghost predicate RcTaking(node: Node, seg: u32, rid: u32) {
    && node.RcNode? && node.segment == seg
    && exists j :: 0 <= j < |node.maps| && Within(rid, node.maps[j].inputBase, node.maps[j].idCount)
  }

  lemma {:induction false} ServesTaking(node: Node, seg: u32, rid: u32)
    ensures Serves(node, seg, rid) <==> RcTaking(node, seg, rid)
  {
    forall m: Mapping ensures Covers(m, rid) <==> Within(rid, m.inputBase, m.idCount) {
      InRangeExact(rid, m.inputBase, m.idCount);
    }
    hide Covers, Within;
  }

  /** Without a root complex that takes the requester the IORT's answer is 0xFFFFFFFF. */
  lemma {:induction false} IortNotFound(g: Iort, order: seq<nat>, k: nat, seg: u32, rid: u32)
    requires k <= |order| && forall i :: 0 <= i < k ==> !RcTaking(g.At(order[i]), seg, rid)
    ensures IortAnswer(g, order, k, seg, rid) == 0xFFFF_FFFF
  {
    var s := Contents(g, order, k);
    forall i | 0 <= i < k ensures !Serves(s[i], seg, rid) { ServesTaking(s[i], seg, rid); }
    hide Serves, RcTaking;
    ServerNone(s, k, seg, rid);
  }

  /**
   Otherwise the last one decides, by its first mapping that takes the requester: the answer is the base of the
   SMMU behind that mapping if one of its ranges holds outputBase + (rid - inputBase), and 0 if not.
   */
  lemma {:induction false} IortFound(g: Iort, order: seq<nat>, k: nat, seg: u32, rid: u32, l: nat, j: nat)
    requires l < k <= |order| && g.At(order[l]).RcNode? && g.At(order[l]).segment == seg && j < |g.At(order[l]).maps|
    requires Within(rid, g.At(order[l]).maps[j].inputBase, g.At(order[l]).maps[j].idCount)
    requires forall i {:trigger g.At(order[l]).maps[i]} :: 0 <= i < j ==>
             !Within(rid, g.At(order[l]).maps[i].inputBase, g.At(order[l]).maps[i].idCount)
    requires forall i :: l < i < k ==> !RcTaking(g.At(order[i]), seg, rid)
    ensures var m, ans := g.At(order[l]).maps[j], IortAnswer(g, order, k, seg, rid);
            SmmuTaking(g.At(m.outputRef), Output(m, rid), ans) ||
            (ans == 0 && forall b :: !SmmuTaking(g.At(m.outputRef), Output(m, rid), b))
  {
    var s, node := Contents(g, order, k), g.At(order[l]);
    forall i | l <= i < k ensures Serves(s[i], seg, rid) <==> i == l { ServesTaking(s[i], seg, rid); }
    forall i | 0 <= i <= j ensures Covers(node.maps[i], rid) <==> i == j {
      InRangeExact(rid, node.maps[i].inputBase, node.maps[i].idCount);
    }
    hide Serves, RcTaking, Contents;
    ServerLast(s, k, l, seg, rid);
    SecondLevel(g, node.maps[j], rid);
    hide Covers, SmmuTaking, SmmuBaseFor, Output;
    assert FirstIndex(node.maps, rid, 0) == j;
  }

  // ------------------------------------------------------------------ back to the nodes of the IORT

  /** From its recording at number f on, no different root complex that serves the requester is recorded. */
  ghost predicate KeptFrom(g: Iort, order: seq<nat>, k: nat, seg: u32, rid: u32, f: nat)
    requires f < k <= |order|
  {
    && RecordedAt(g, order, f)
    && forall i {:trigger RecordedAt(g, order, i)} :: f < i < k && RecordedAt(g, order, i) ==>
         Serves(g.At(order[i]), seg, rid) ==> g.At(order[i]) == g.At(order[f])
  }

  /** Node l is the last of the order that serves the requester. */
  ghost predicate LastAt(g: Iort, order: seq<nat>, k: nat, seg: u32, rid: u32, l: nat)
    requires k <= |order|
  {
    l < k && Serves(g.At(order[l]), seg, rid) && forall m :: l < m < k ==> !Serves(g.At(order[m]), seg, rid)
  }

  ghost predicate KeptUpTo(g: Iort, order: seq<nat>, k: nat, seg: u32, rid: u32, l: nat)
    requires l < k <= |order|
  {
    exists f :: 0 <= f <= l && g.At(order[f]) == g.At(order[l]) && KeptFrom(g, order, k, seg, rid, f)
  }

  /** The last root complex of the IORT that serves the requester is recorded, and kept as the last one that serves. */
  ghost predicate ServerKept(g: Iort, order: seq<nat>, k: nat, seg: u32, rid: u32)
    requires k <= |order|
  {
    forall l :: LastAt(g, order, k, seg, rid, l) ==> KeptUpTo(g, order, k, seg, rid, l)
  }

  /** The last recorded server, by its number in the order. */
  lemma {:induction false} RecordedServer(g: Iort, order: seq<nat>, k: nat, seg: u32, rid: u32)
      returns (none: bool, r: nat)
    requires k <= |order|
    ensures none ==> LastServer(RecordedRcs(g, order, k), |RecordedRcs(g, order, k)|, seg, rid) == NoServer
    ensures none ==> forall i {:trigger RecordedAt(g, order, i)} :: 0 <= i < k && RecordedAt(g, order, i) ==>
            !Serves(g.At(order[i]), seg, rid)
    ensures !none ==> r < k && RecordedAt(g, order, r) && Serves(g.At(order[r]), seg, rid)
    ensures !none ==>
              LastServer(RecordedRcs(g, order, k), |RecordedRcs(g, order, k)|, seg, rid) == Server(g.At(order[r]))
    ensures !none ==> forall i {:trigger RecordedAt(g, order, i)} :: r < i < k && RecordedAt(g, order, i) ==>
            !Serves(g.At(order[i]), seg, rid)
    decreases k
  {
    hide RecordedAt;
    none, r := true, 0;
    if k > 0 {
      none, r := RecordedServer(g, order, k - 1, seg, rid);
      var rcs, n := RecordedRcs(g, order, k - 1), g.At(order[k - 1]);
      if n.RcNode? && RecordedAt(g, order, k - 1) {
        ServerExtends(rcs, rcs + [n], |rcs|, seg, rid);
        if Serves(n, seg, rid) { none, r := false, k - 1; }
      }
    }
  }

  lemma {:induction false} LastUnique(g: Iort, order: seq<nat>, k: nat, seg: u32, rid: u32, l: nat)
    requires k <= |order| && LastAt(g, order, k, seg, rid, l)
    ensures ServerKept(g, order, k, seg, rid) <==> KeptUpTo(g, order, k, seg, rid, l)
  {
    hide KeptUpTo, Serves;
    forall m | LastAt(g, order, k, seg, rid, m) ensures m == l {}
  }

  lemma {:induction false} RecordedServerIff(g: Iort, order: seq<nat>, k: nat, seg: u32, rid: u32, l: nat)
    requires k <= |order| && LastAt(g, order, k, seg, rid, l)
    ensures LastServer(RecordedRcs(g, order, k), |RecordedRcs(g, order, k)|, seg, rid) == Server(g.At(order[l])) <==>
            KeptUpTo(g, order, k, seg, rid, l)
  {
    hide RecordedAt, RecordedRcs, Serves, LastServer;
    var none, r := RecordedServer(g, order, k, seg, rid);
    if !none && g.At(order[r]) == g.At(order[l]) {
      assert KeptFrom(g, order, k, seg, rid, r);
    }
    if KeptUpTo(g, order, k, seg, rid, l) {
      var f :| 0 <= f <= l && g.At(order[f]) == g.At(order[l]) && KeptFrom(g, order, k, seg, rid, f);
      assert RecordedAt(g, order, f) && Serves(g.At(order[f]), seg, rid);
    }
  }

  /**
   The table resolves a requester with the same root complex as the IORT exactly if the last one that
   serves it is recorded somewhere, and no different one that serves it is recorded after that.
   */
  lemma {:induction false} SameServerIff(g: Iort, order: seq<nat>, k: nat, seg: u32, rid: u32)
    requires k <= |order|
    ensures LastServer(RecordedRcs(g, order, k), |RecordedRcs(g, order, k)|, seg, rid)
              == LastServer(Contents(g, order, k), k, seg, rid)
            <==> ServerKept(g, order, k, seg, rid)
  {
    hide RecordedAt, RecordedRcs, Serves;
    var s := Contents(g, order, k);
    assert forall l :: 0 <= l < k ==> s[l] == g.At(order[l]);
    if exists l :: 0 <= l < k && Serves(s[l], seg, rid) {
      var l := FindLast(s, k, seg, rid);
      ServerLast(s, k, l, seg, rid);
      assert LastAt(g, order, k, seg, rid, l);
      LastUnique(g, order, k, seg, rid, l);
      RecordedServerIff(g, order, k, seg, rid, l);
      hide *;
    } else {
      assert forall l :: 0 <= l < k ==> !Serves(g.At(order[l]), seg, rid);
      ServerNone(s, k, seg, rid);
      var none, r := RecordedServer(g, order, k, seg, rid);
      assert ServerKept(g, order, k, seg, rid) by { forall l | LastAt(g, order, k, seg, rid, l) ensures false {} }
      hide *;
    }
  }

  /**
   A root complex with no lookalike before it is kept unless a later one serves; so with no lookalikes at all
   nothing changes.
   */
  lemma {:induction false} NoLookalikesKept(g: Iort, order: seq<nat>, k: nat, seg: u32, rid: u32)
    requires k <= |order|
    requires forall l {:trigger RecordedAt(g, order, l)} :: 0 <= l < k && g.At(order[l]).RcNode? ==>
             RecordedAt(g, order, l)
    ensures ServerKept(g, order, k, seg, rid)
  {
    forall l | LastAt(g, order, k, seg, rid, l) ensures KeptUpTo(g, order, k, seg, rid, l) {
      assert RecordedAt(g, order, l);
      assert KeptFrom(g, order, k, seg, rid, l);
    }
  }

  /** No root complex is listed twice. */
  ghost predicate RcsDistinct(g: Iort, order: seq<nat>, k: nat)
    requires k <= |order|
  {
    forall i, j :: 0 <= i < j < k && g.At(order[i]).RcNode? ==> g.At(order[i]) != g.At(order[j])
  }

  /** All root complexes of the order that serve the requester are one and the same. */
  ghost predicate OneServer(g: Iort, order: seq<nat>, k: nat, seg: u32, rid: u32)
    requires k <= |order|
  {
    forall i, j :: 0 <= i < k && 0 <= j < k && Serves(g.At(order[i]), seg, rid) && Serves(g.At(order[j]), seg, rid) ==>
      g.At(order[i]) == g.At(order[j])
  }

  /** The first node of the order that says what node l says. */
  lemma {:induction false} FirstSaying(g: Iort, order: seq<nat>, l: nat, from: nat) returns (f: nat)
    requires from <= l < |order| && forall j :: 0 <= j < from ==> g.At(order[j]) != g.At(order[l])
    ensures f <= l && g.At(order[f]) == g.At(order[l]) && forall j :: 0 <= j < f ==> g.At(order[j]) != g.At(order[l])
    decreases l - from
  {
    if g.At(order[from]) == g.At(order[l]) { f := from; } else { f := FirstSaying(g, order, l, from + 1); }
  }

  /**
   Where keys tell nodes apart, the answers agree if no root complex is repeated, or all that serve the
   requester are the same.
   */
  lemma {:induction false} RecordedAnswers(g: Iort, order: seq<nat>, k: nat, seg: u32, rid: u32)
    requires g.Valid() && KeyDetermines(g) && AllIn(g, order) && k <= |order|
    requires RcsDistinct(g, order, k) || OneServer(g, order, k, seg, rid)
    ensures RecordedAnswer(g, order, k, seg, rid) == IortAnswer(g, order, k, seg, rid)
  {
    hide LookAlike;
    forall l | LastAt(g, order, k, seg, rid, l) ensures KeptUpTo(g, order, k, seg, rid, l) {
      var f := FirstSaying(g, order, l, 0);
      assert RecordedAt(g, order, f);
      assert KeptFrom(g, order, k, seg, rid, f);
    }
    SameServerIff(g, order, k, seg, rid);
  }
}
