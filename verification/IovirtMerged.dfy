/**
 Nodes that lookups take for one another: what the query answers on tables built from IORTs in which a
 root complex is repeated, or two root complexes or two SMMUs have the same key, and an overlap that is lost
 with a named component.
 */
module IovirtMerged {
  import opened Iort
  import opened IovirtLayout
  import opened IovirtBuild
  import opened IovirtCounts
  import opened IovirtNames
  import opened IovirtImage
  import opened IovirtRun
  import opened IovirtEntered
  import opened IovirtDedup
  import opened IovirtResolve
  import opened IovirtResolution
  import opened IovirtOverlap
  import opened IovirtFlags
  import opened IovirtForward

  // ------------------------------------------------------------------ root complexes of the same key

  /** A walk without PMCGs finds every PMCG's target. */
  lemma {:induction false} NoPmcgs(g: Iort, order: seq<nat>, k: nat)
    requires g.Valid() && AllIn(g, order) && k <= |order| && forall i :: 0 <= i < k ==> !g.nodes[order[i]].PmcgNode?
    ensures PmcgsReady(g, order, k)
    decreases k
  {
    hide PmcgReady;
    if k > 0 {
      NoPmcgs(g, order, k - 1);
      NotPmcgReady(g, order[k - 1], Build(g, order, k - 1));
    }
  }

  /**
   On the finished table the query has an answer, the one read off the walk; it is the one on the recorded root
   complexes if and only if the SMMU standing in at the mapping that answers agrees with its target.
   */
  lemma {:induction false} AnswerOnTable(g: Iort, order: seq<nat>, seg: u32, rid: u32)
    requires g.Valid() && RcsNeverTargets(g) && AllIn(g, order) && PmcgsReady(g, order, |order|)
    ensures TableAnswers(Build(g, order, |order|).blocks, seg, rid, WalkAnswer(g, order, |order|, seg, rid))
    ensures TableAnswers(Build(g, order, |order|).blocks, seg, rid, RecordedAnswer(g, order, |order|, seg, rid)) <==>
            WalkAgrees(g, order, |order|, seg, rid)
  {
    hide PmcgReady, Empty, TableAnswers, RcsNeverTargets, Build, WalkAnswer, WalkAgrees, RecordedAnswer;
    NeverTargetsApart(g);
    WalkAnswers(g, order, |order|, seg, rid, WalkAnswer(g, order, |order|, seg, rid));
    WalkAnswers(g, order, |order|, seg, rid, RecordedAnswer(g, order, |order|, seg, rid));
    ResolutionPreserved(g, order, |order|, seg, rid, WalkAnswer(g, order, |order|, seg, rid));
  }

  const RC_A := RcNode(0, 0, 0, [Mapping(0, 10, 0, 300)])
  const RC_B := RcNode(0, 1, 0, [Mapping(0, 10, 0, 400)])

  /** One root complex listed on both sides of another one of the same segment. */
  function RcTwice(): Iort {
    Iort(map[0 := RC_A, 100 := RC_B, 200 := RC_A, 300 := ItsNode([7]), 400 := SmmuV3Node(7, [Mapping(0, 10, 0, 300)])],
         map[0 := 100, 100 := 100, 200 := 100, 300 := 100, 400 := 100], 0, 5, 500,
         map[0 := 2, 100 := 2, 200 := 2, 300 := 0, 400 := 1])
  }

  const FIVE: seq<nat> := [0, 100, 200, 300, 400]

  lemma {:induction false} SameHeadFields(a: Node, b: Node)
    requires SameHead(a, b)
    ensures a.ItsNode? == b.ItsNode? && a.RcNode? == b.RcNode? && a.SmmuV3Node? == b.SmmuV3Node?
    ensures a.RcNode? ==> a.cca == b.cca
  {}

  lemma {:induction false} RcTwiceValid()
    ensures RcTwice().Valid() && AllIn(RcTwice(), FIVE)
  {
    var g := RcTwice();
    assert g.ValidNode(0) && g.ValidNode(100) && g.ValidNode(200) && g.ValidNode(300) && g.ValidNode(400);
  }

  lemma {:induction false} RcTwiceTargets()
    ensures RcsNeverTargets(RcTwice())
  {
    var g := RcTwice();
    forall n | n in g.nodes ensures NoRcTarget(g, n) {}
  }

  lemma {:induction false} RcTwiceKeys()
    ensures KeyDetermines(RcTwice())
  {
    var g := RcTwice();
    hide SameHead, Recognisable;
    forall m, n | m in g.nodes && n in g.nodes && LookAlike(g, m, n) ensures g.nodes[m] == g.nodes[n] {
      SameHeadFields(g.At(m), g.At(n));
    }
  }

  /** The repetition is dropped. */
  lemma {:induction false} RepetitionDropped()
    ensures RecordedRcs(RcTwice(), FIVE, 5) == [RC_A, RC_B]
  {
    var g := RcTwice();
    assert LookAlike(g, FIVE[0], FIVE[2]);
    assert !LookAlike(g, FIVE[0], FIVE[1]) by {
      if SameHead(g.At(0), g.At(100)) { SameHeadFields(g.At(0), g.At(100)); }
    }
    hide LookAlike;
    assert RecordedAt(g, FIVE, 0) && RecordedAt(g, FIVE, 1) && !RecordedAt(g, FIVE, 2);
    hide RecordedAt;
    assert RecordedRcs(g, FIVE, 0) == [];
    assert RecordedRcs(g, FIVE, 1) == [RC_A];
    assert RecordedRcs(g, FIVE, 2) == [RC_A, RC_B];
    assert RecordedRcs(g, FIVE, 3) == [RC_A, RC_B];
    assert RecordedRcs(g, FIVE, 4) == [RC_A, RC_B];
  }

  /** With one mapping there is no choice. */
  lemma {:induction false} OneMapping(g: Iort, node: Node, seg: u32, rid: u32)
    requires Serves(node, seg, rid) && |node.maps| == 1
    ensures AnswerOf(g, Server(node), seg, rid) == SmmuBaseFor(g, node.maps[0], rid)
  {}

  lemma {:induction false} RecordedGivesB()
    ensures RecordedAnswer(RcTwice(), FIVE, 5, 0, 0) == 7
  {
    var g, two := RcTwice(), [RC_A, RC_B];
    RepetitionDropped();
    assert Covers(RC_B.maps[0], 0) && Serves(RC_B, 0, 0);
    ServerLast(two, 2, 1, 0, 0);
    OneMapping(g, RC_B, 0, 0);
    var smmu := g.At(400);
    assert Covers(smmu.Maps()[0], 0);
  }

  lemma {:induction false} IortGivesA()
    ensures IortAnswer(RcTwice(), FIVE, 5, 0, 0) == 0
  {
    var g := RcTwice();
    assert Covers(RC_A.maps[0], 0) && Serves(RC_A, 0, 0);
    var all := Contents(g, FIVE, 5);
    assert all[2] == RC_A && all[3] == g.At(300) && all[4] == g.At(400);
    hide Contents;
    ServerLast(all, 5, 2, 0, 0);
    OneMapping(g, RC_A, 0, 0);
  }

  /**
   So the last root complex that serves requester 0 is the other one: the table built by the walk over all
   five nodes answers with its SMMU, the IORT read in order with no SMMU.
   */
  lemma {:induction false} RepeatedRcAnswers()
    ensures RcTwice().Valid() && KeyDetermines(RcTwice()) && RcsNeverTargets(RcTwice())
    ensures AllIn(RcTwice(), FIVE) && PmcgsReady(RcTwice(), FIVE, 5)
    ensures TableAnswers(Build(RcTwice(), FIVE, 5).blocks, 0, 0, 7) && IortAnswer(RcTwice(), FIVE, 5, 0, 0) == 0
  {
    var g := RcTwice();
    RcTwiceValid();
    assert |FIVE| == 5 && forall i :: 0 <= i < 5 ==> !g.nodes[FIVE[i]].PmcgNode?;
    hide *;
    NoPmcgs(g, FIVE, 5);
    RcTwiceKeys();
    TargetsFollow(g);
    RcTwiceTargets();
    DeterminedWalk(g, FIVE, 5, 0, 0);
    AnswerOnTable(g, FIVE, 0, 0);
    RecordedGivesB();
    IortGivesA();
  }

  /** Two root complexes of one segment with one mapping each, straight to the ITS group, for different requesters. */
  function SameKeyRcs(): Iort {
    Iort(map[0 := RcNode(0, 0, 0, [Mapping(0, 9, 0, 200)]), 100 := RcNode(0, 0, 0, [Mapping(100, 9, 100, 200)]),
      200 := ItsNode([7])],
         map[0 := 100, 100 := 100, 200 := 100], 0, 3, 300, map[0 := 1, 100 := 1, 200 := 0])
  }

  const THREE: seq<nat> := [0, 100, 200]

  lemma {:induction false} SameKeyValid()
    ensures SameKeyRcs().Valid() && AllIn(SameKeyRcs(), THREE)
  {
    var g := SameKeyRcs();
    assert g.ValidNode(0) && g.ValidNode(100) && g.ValidNode(200);
  }

  lemma {:induction false} SameKeyTargets()
    ensures RcsNeverTargets(SameKeyRcs()) && TargetsDetermined(SameKeyRcs())
  {
    var g := SameKeyRcs();
    forall n | n in g.nodes ensures NoRcTarget(g, n) {}
    hide SameHead;
    forall m | m in g.nodes && LookAlike(g, m, 200) ensures m == 200 { SameHeadFields(g.At(m), g.At(200)); }
    assert Determined(g, 200);
    hide Determined;
    forall n | n in g.nodes ensures TargetsOf(g, n) {}
  }

  lemma {:induction false} SecondDropped()
    ensures RecordedRcs(SameKeyRcs(), THREE, 3) == [SameKeyRcs().nodes[0]]
  {
    var g := SameKeyRcs();
    assert LookAlike(g, THREE[0], THREE[1]);
    hide LookAlike;
    assert RecordedAt(g, THREE, 0) && !RecordedAt(g, THREE, 1);
    hide RecordedAt;
    assert RecordedRcs(g, THREE, 0) == [];
    assert RecordedRcs(g, THREE, 1) == [g.nodes[0]];
    assert RecordedRcs(g, THREE, 2) == [g.nodes[0]];
  }

  lemma {:induction false} SameKeyRecorded()
    ensures RecordedAnswer(SameKeyRcs(), THREE, 3, 0, 105) == NOT_FOUND
  {
    var one := [SameKeyRcs().nodes[0]];
    SecondDropped();
    assert !Covers(one[0].maps[0], 105);
    hide RecordedRcs;
    ServerNone(one, 1, 0, 105);
  }

  lemma {:induction false} SameKeyIort()
    ensures IortAnswer(SameKeyRcs(), THREE, 3, 0, 105) == 0
  {
    var g := SameKeyRcs();
    var rc, all := g.nodes[100], Contents(g, THREE, 3);
    assert all[1] == rc && all[2] == g.At(200);
    hide Contents;
    assert Covers(rc.maps[0], 105) && Serves(rc, 0, 105);
    ServerLast(all, 3, 1, 0, 105);
    OneMapping(g, rc, 0, 105);
  }

  /**
   The second is taken for the first and lost: its requesters are not found, though the IORT has a mapping for
   them.
   */
  lemma {:induction false} SameKeyLost()
    ensures SameKeyRcs().Valid() && RcsNeverTargets(SameKeyRcs()) && TargetsDetermined(SameKeyRcs())
    ensures AllIn(SameKeyRcs(), THREE) && PmcgsReady(SameKeyRcs(), THREE, 3)
    ensures TableAnswers(Build(SameKeyRcs(), THREE, 3).blocks, 0, 105, NOT_FOUND)
    ensures IortAnswer(SameKeyRcs(), THREE, 3, 0, 105) == 0
  {
    var g := SameKeyRcs();
    SameKeyValid();
    assert |THREE| == 3 && forall i :: 0 <= i < 3 ==> !g.nodes[THREE[i]].PmcgNode?;
    hide *;
    NoPmcgs(g, THREE, 3);
    SameKeyTargets();
    DeterminedWalk(g, THREE, 3, 0, 105);
    AnswerOnTable(g, THREE, 0, 105);
    SameKeyRecorded();
    SameKeyIort();
  }

  // ------------------------------------------------------------------ SMMUs of the same key

  const RC_C := RcNode(0, 0, 0, [Mapping(0, 9, 0, 200)])
  const RC_D := RcNode(0, 1, 0, [Mapping(100, 9, 100, 300)])
  const SMMU_C := SmmuV3Node(7, [Mapping(0, 9, 0, 400)])
  const SMMU_D := SmmuV3Node(7, [Mapping(100, 9, 100, 400)])

  /** Two root complexes behind two SMMU nodes that give the same base and have one mapping each. */
  function SharedBase(): Iort {
    Iort(map[0 := RC_C, 100 := RC_D, 200 := SMMU_C, 300 := SMMU_D, 400 := ItsNode([7])],
         map[0 := 100, 100 := 100, 200 := 100, 300 := 100, 400 := 100], 0, 5, 500,
         map[0 := 2, 100 := 2, 200 := 1, 300 := 1, 400 := 0])
  }

  lemma {:induction false} SharedBaseValid(g: Iort)
    requires g == SharedBase()
    ensures g.Valid() && AllIn(g, FIVE) && |FIVE| == 5 && forall i :: 0 <= i < 5 ==> !g.nodes[FIVE[i]].PmcgNode?
  {
    assert g.ValidNode(0) && g.ValidNode(100) && g.ValidNode(200) && g.ValidNode(300) && g.ValidNode(400);
  }

  lemma {:induction false} SharedBaseApart(g: Iort)
    requires g == SharedBase() && g.Valid()
    ensures RcsApart(g)
  {
    forall n | n in g.nodes ensures NoRcTarget(g, n) {}
    NeverTargetsApart(g);
  }

  /** Which of the nodes look alike. */
  lemma {:induction false} SharedBaseAlike(g: Iort)
    requires g == SharedBase()
    ensures LookAlike(g, 200, 200) && LookAlike(g, 200, 300) && LookAlike(g, 400, 400)
  {}

  lemma {:induction false} SharedBaseKeys(g: Iort)
    requires g == SharedBase()
    ensures LookAlike(g, 200, 200) && LookAlike(g, 200, 300) && LookAlike(g, 400, 400)
    ensures !SameKey(g, 0, 100) && !SameKey(g, 200, 100) && !SameKey(g, 400, 100)
    ensures !SameKey(g, 0, 200) && !SameKey(g, 0, 300) && !SameKey(g, 0, 400) && !SameKey(g, 200, 400)
  {
    SharedBaseAlike(g);
    assert g.At(0) == RC_C && g.At(100) == RC_D && g.At(200) == SMMU_C && g.At(300) == SMMU_D && g.At(400).ItsNode?;
    hide LookAlike, SameHead, SharedBase;
    if SameHead(RC_C, RC_D) { SameHeadFields(RC_C, RC_D); }
    forall m, n | SameHead(g.At(m), g.At(n))
      ensures g.At(m).ItsNode? == g.At(n).ItsNode? && g.At(m).RcNode? == g.At(n).RcNode?
    {
      SameHeadFields(g.At(m), g.At(n));
    }
  }

  /** After the first root complex: its mapping names the first SMMU's block, whose mapping names the ITS group's. */
  ghost predicate ThreeNames(a: Names) {
    && |a.owners| == 3 && a.owners[0] == 0 && a.owners[1] == 200 && a.owners[2] == 400 && a.finished == 3
    && |a.links[0]| == 1 && a.links[0][0] == 1
  }

  /** After both: the second one's mapping names the first SMMU's block too. */
  ghost predicate FourNames(a: Names) {
    && |a.owners| == 4 && a.owners[0] == 0 && a.owners[1] == 200 && a.owners[2] == 400 && a.owners[3] == 100
    && |a.links[0]| == 1 && a.links[0][0] == 1 && |a.links[3]| == 1 && a.links[3][0] == 1 && a.finished == 4
  }

  lemma {:induction false} SharedBaseFirst(g: Iort)
    requires g == SharedBase() && g.Valid()
    ensures ThreeNames(Enter(g, 0, NO_NAMES))
  {
    assert g.nodes[0] == RC_C && g.nodes[200] == SMMU_C && g.nodes[400].ItsNode?;
    hide LookAlike, Enter, EnterMaps, SharedBase;
    var a, b := Laid(NO_NAMES, 0), Laid(Laid(NO_NAMES, 0), 200);
    EnterOne(g, 0, NO_NAMES);
    EnterOne(g, 200, a);
    EnterLeaf(g, 400, b);
  }

  /** With the first SMMU in block 1 both SMMUs are found there, and the ITS group in block 2. */
  lemma {:induction false} SharedBaseKnown(g: Iort, a: Names)
    requires g == SharedBase() && g.Valid() && |a.owners| == 4 && a.finished >= 3
    requires a.owners[0] == 0 && a.owners[1] == 200 && a.owners[2] == 400 && a.owners[3] == 100
    ensures Enter(g, 200, a) == a && Enter(g, 300, a) == a && Enter(g, 400, a) == a && PlaceOf(g, a, 300) == 1
  {
    SharedBaseKeys(g);
    assert 200 in g.nodes && 300 in g.nodes && 400 in g.nodes;
    hide SameKey, Recognisable, Enter, SharedBase, Known, PlaceOf;
    EnterKnown(g, a, 1, 200);
    EnterKnown(g, a, 1, 300);
    EnterKnown(g, a, 2, 400);
  }

  lemma {:induction false} SharedBaseUnknown(g: Iort, a: Names)
    requires g == SharedBase() && ThreeNames(a)
    ensures !Known(g, a, 100)
  {
    SharedBaseKeys(g);
    hide SameKey, Recognisable, SharedBase;
  }

  lemma {:induction false} SharedBaseSecond(g: Iort, a: Names)
    requires g == SharedBase() && g.Valid() && ThreeNames(a)
    ensures FourNames(Enter(g, 100, a))
  {
    assert 100 in g.nodes && g.nodes[100] == RC_D && RC_D.maps[0].outputRef == 300;
    SharedBaseUnknown(g, a);
    SharedBaseKnown(g, Laid(a, 100));
    hide Enter, SharedBase, PlaceOf, Known, KeepsBut, Keeps;
    EnterOne(g, 100, a);
  }

  /** The walk makes no block for the second SMMU, and the second root complex's mapping names the first one's. */
  lemma {:induction false} SharedBaseListed(g: Iort)
    requires g == SharedBase() && g.Valid() && AllIn(g, FIVE) && |FIVE| == 5
    ensures FourNames(Listed(g, FIVE, 5))
  {
    hide Enter, Listed, SharedBase;
    assert FIVE[0] == 0 && FIVE[1] == 100 && FIVE[2] == 200 && FIVE[3] == 300 && FIVE[4] == 400;
    hide FIVE;
    var a := Enter(g, 0, NO_NAMES);
    SharedBaseFirst(g);
    SharedBaseSecond(g, a);
    SharedBaseKnown(g, Enter(g, 100, a));
    FiveSteps(g, FIVE, a, Enter(g, 100, a));
  }

  lemma {:induction false} FiveSteps(g: Iort, order: seq<nat>, a: Names, d: Names)
    requires g.Valid() && AllIn(g, order) && |order| == 5
    requires Enter(g, order[0], NO_NAMES) == a && Enter(g, order[1], a) == d
    requires forall i :: 2 <= i < 5 ==> Enter(g, order[i], d) == d
    ensures Listed(g, order, 5) == d
  {
    assert Listed(g, order, 0) == NO_NAMES;
    hide Listed, Enter, AllIn, NO_NAMES;
    ListedStep(g, order, 0);
    ListedStep(g, order, 1);
    ListedStep(g, order, 2);
    ListedStep(g, order, 3);
    ListedStep(g, order, 4);
  }

  lemma {:induction false} SharedBaseServes(g: Iort, rid: u32)
    requires g == SharedBase()
    ensures forall n :: Serves(g.At(n), 0, rid) <==> (n == 0 && rid <= 9) || (n == 100 && 100 <= rid <= 109)
    ensures TakenBy(SMMU_C, rid) <==> rid <= 9
    ensures TakenBy(SMMU_D, rid) <==> 100 <= rid <= 109
    ensures g.At(0) == RC_C && g.At(100) == RC_D && g.At(200) == SMMU_C && g.At(300) == SMMU_D && g.At(400).ItsNode?
  {
    assert Covers(RC_C.maps[0], rid) <==> rid <= 9;
    assert Covers(RC_D.maps[0], rid) <==> 100 <= rid <= 109;
    assert Covers(SMMU_C.Maps()[0], rid) <==> rid <= 9;
    assert Covers(SMMU_D.Maps()[0], rid) <==> 100 <= rid <= 109;
    hide Covers;
  }

  /** Either root complex is answered by way of the first SMMU. */
  lemma {:induction false} SharedBaseRoute(g: Iort, a: Names, rid: u32)
    requires g == SharedBase() && FourNames(a) && AllStandIns(g, a)
    ensures RouteOf(g, a, 0, rid) ==
            if rid <= 9 then Route(200, RC_C.maps[0])
            else if 100 <= rid <= 109 then Route(200, RC_D.maps[0]) else NoRoute
  {
    SharedBaseServes(g, rid);
    hide Serves, Covers, LastIndex, FirstIndex, AllStandIns, SharedBase;
  }

  /** The translation keeps the identifier. */
  lemma {:induction false} SameId(rid: u32)
    ensures Translate(rid, 0, 0) == rid && Translate(rid, 100, 100) == rid
  {}

  lemma {:induction false} SharedBaseIort(g: Iort, rid: u32)
    requires g == SharedBase() && |FIVE| == 5
    ensures IortAnswer(g, FIVE, 5, 0, rid) == if rid <= 9 || 100 <= rid <= 109 then 7 else NOT_FOUND
  {
    SharedBaseServes(g, rid);
    SameId(rid);
    var all := Contents(g, FIVE, 5);
    assert all[0] == RC_C && all[1] == RC_D && all[2] == g.At(200) && all[3] == g.At(300) && all[4] == g.At(400);
    hide Contents, Serves, Translate, SharedBase, TakenBy;
    if rid <= 9 {
      ServerLast(all, 5, 0, 0, rid);
      OneMapping(g, RC_C, 0, rid);
    } else if 100 <= rid <= 109 {
      ServerLast(all, 5, 1, 0, rid);
      OneMapping(g, RC_D, 0, rid);
    } else {
      ServerNone(all, 5, 0, rid);
    }
  }

  /**
   On the IORT both root complexes are behind an SMMU of base 7. The table built by the walk says so of the
   first one's requesters, where the stand-in agrees, and of the second one's that they are behind none.
   */
  lemma {:induction false} SharedBaseMerged(g: Iort, rid: u32, ans: nat)
    requires g == SharedBase()
    ensures g.Valid() && AllIn(g, FIVE) && PmcgsReady(g, FIVE, 5)
    ensures TableAnswers(Build(g, FIVE, 5).blocks, 0, rid, ans) <==>
            ans == if rid <= 9 then 7 else if 100 <= rid <= 109 then 0 else NOT_FOUND
    ensures IortAnswer(g, FIVE, 5, 0, rid) == if rid <= 9 || 100 <= rid <= 109 then 7 else NOT_FOUND
    ensures WalkAgrees(g, FIVE, 5, 0, rid) <==> !(100 <= rid <= 109)
  {
    SharedBaseValid(g);
    NoPmcgs(g, FIVE, 5);
    SharedBaseApart(g);
    SharedBaseIort(g, rid);
    WalkAnswers(g, FIVE, 5, 0, rid, ans);
    SharedBaseWalk(g, rid);
    hide *;
  }

  lemma {:induction false} SharedBaseWalk(g: Iort, rid: u32)
    requires g == SharedBase() && g.Valid() && AllIn(g, FIVE) && |FIVE| == 5
    ensures WalkAnswer(g, FIVE, 5, 0, rid) == if rid <= 9 then 7 else if 100 <= rid <= 109 then 0 else NOT_FOUND
    ensures WalkAgrees(g, FIVE, 5, 0, rid) <==> !(100 <= rid <= 109)
  {
    SharedBaseListed(g);
    ListedAllStandIns(g, FIVE, 5);
    hide Listed, FIVE, SharedBase, NamedAnswer, RouteAgrees, AllStandIns, FourNames;
    SharedBaseNamed(g, Listed(g, FIVE, 5), rid);
  }

  lemma {:induction false} SharedBaseNamed(g: Iort, a: Names, rid: u32)
    requires g == SharedBase() && FourNames(a) && AllStandIns(g, a)
    ensures NamedAnswer(g, a, 0, rid) == if rid <= 9 then 7 else if 100 <= rid <= 109 then 0 else NOT_FOUND
    ensures RouteAgrees(g, a, 0, rid) <==> !(100 <= rid <= 109)
  {
    SharedBaseRoute(g, a, rid);
    SharedBaseServes(g, rid);
    SameId(rid);
    hide RouteOf, TakenBy, Translate, AllStandIns, Serves, SharedBase, FourNames;
  }

  // ------------------------------------------------------------------ named components of the same key

  /**
   Two named components whose names differ only behind their first sixteen characters, with one mapping each to
   the same SMMU; both mappings have the stream IDs 5 to 9.
   */
  function MergedNames(p: string, s: string, t: string): Iort {
    Iort(map[0 := NamedNode(p + s, [Mapping(0, 10, 0, 200)]), 100 := NamedNode(p + t, [Mapping(0, 10, 5, 200)]),
      200 := SmmuV3Node(7, [])],
         map[0 := 100, 100 := 100, 200 := 100], 0, 3, 300, map[0 := 1, 100 := 1, 200 := 0])
  }

  const SMMU_FIRST: seq<nat> := [200, 0, 100]

  lemma {:induction false} MergedNamesValid(g: Iort, p: string, s: string, t: string)
    requires g == MergedNames(p, s, t)
    ensures g.Valid() && AllIn(g, SMMU_FIRST) && RcsApart(g) && |SMMU_FIRST| == 3
    ensures forall i :: 0 <= i < 3 ==> !g.nodes[SMMU_FIRST[i]].PmcgNode?
  {
    assert g.ValidNode(0) && g.ValidNode(100) && g.ValidNode(200);
  }

  lemma {:induction false} MergedNamesKeys(g: Iort, p: string, s: string, t: string)
    requires g == MergedNames(p, s, t) && |p| == 16
    ensures LookAlike(g, 0, 100) && LookAlike(g, 200, 200) && !SameKey(g, 200, 0) && !SameKey(g, 200, 100)
    ensures forall m :: m in g.nodes && SameKey(g, m, 200) ==> m == 200
  {
    assert (p + s)[..16] == p == (p + t)[..16];
  }

  lemma {:induction false} MergedNamesTargets(g: Iort, p: string, s: string, t: string)
    requires g == MergedNames(p, s, t) && |p| == 16
    ensures TargetsDetermined(g)
  {
    MergedNamesKeys(g, p, s, t);
    hide SameKey, Recognisable;
    assert Determined(g, 200);
    hide Determined;
    forall n | n in g.nodes ensures TargetsOf(g, n) {}
  }

  /** Blocks for the SMMU and the first named component only. */
  ghost predicate TwoNames(a: Names) {
    && |a.owners| == 2 && a.owners[0] == 200 && a.owners[1] == 0 && a.finished == 2
    && |a.links[0]| == 0 && |a.links[1]| == 1
  }

  lemma {:induction false} MergedNamesSteps(g: Iort, p: string, s: string, t: string)
    requires g == MergedNames(p, s, t) && |p| == 16 && g.Valid()
    ensures var a := Enter(g, 0, Enter(g, 200, NO_NAMES)); TwoNames(a) && Enter(g, 100, a) == a
  {
    MergedNamesKeys(g, p, s, t);
    assert g.nodes[0].NamedNode? && |g.nodes[0].maps| == 1 && g.nodes[0].maps[0].outputRef == 200;
    assert g.nodes[200].SmmuV3Node? && g.nodes[200].maps == [] && 100 in g.nodes;
    hide SameKey, Recognisable, Enter, MergedNames, PlaceOf;
    EnterLeaf(g, 200, NO_NAMES);
    var a := Enter(g, 200, NO_NAMES);
    EnterKnown(g, Laid(a, 0), 0, 200);
    EnterOne(g, 0, a);
    EnterKnown(g, Enter(g, 0, a), 1, 100);
  }

  lemma {:induction false} MergedNamesListed(g: Iort, p: string, s: string, t: string)
    requires g == MergedNames(p, s, t) && |p| == 16 && g.Valid() && AllIn(g, SMMU_FIRST)
    ensures TwoNames(Listed(g, SMMU_FIRST, 3))
  {
    MergedNamesSteps(g, p, s, t);
    assert SMMU_FIRST[0] == 200 && SMMU_FIRST[1] == 0 && SMMU_FIRST[2] == 100;
    assert Listed(g, SMMU_FIRST, 0) == NO_NAMES;
    hide *;
    ListedStep(g, SMMU_FIRST, 0);
    ListedStep(g, SMMU_FIRST, 1);
    ListedStep(g, SMMU_FIRST, 2);
  }

  lemma {:induction false} MergedNamesCollide(g: Iort, p: string, s: string, t: string)
    requires g == MergedNames(p, s, t) && |p| == 16 && s != t
    ensures g.At(0) != g.At(100) && g.At(0) != g.At(200) && Collide(g, 0, 0, 100, 0, false)
  {
    assert (p + s)[16..] == s && (p + t)[16..] == t;
    var m, n := g.At(0).Maps()[0], g.At(100).Maps()[0];
    assert InOutput(5, AsEntry(m)) && InOutput(5, AsEntry(n));
  }

  /** Only one mapping is in the table, so that nothing overlaps. */
  lemma {:induction false} OneEntry(g: Iort, blocks: seq<Block>, a: Names, x: nat, its: bool)
    requires Image(g, blocks, a.owners, {}) && Wired(blocks, a.links) && TwoNames(a)
    ensures !TrueOverlap(blocks, x, its)
  {
    hide Image, Wired, Meets;
    if p :| Overlaps(blocks, p, its) && (x == p.a || x == p.b) { OverlapOnImage(g, blocks, a, p, its); }
  }

  /**
   The second is taken for the first and dropped. Every run condition of WalkMarks holds, the two mappings
   collide, and the table has no overlap at all.
   */
  lemma {:induction false} OverlapLostWithName(g: Iort, p: string, s: string, t: string)
    requires g == MergedNames(p, s, t) && |p| == 16 && s != t
    ensures g.Valid() && RcsApart(g) && TargetsDetermined(g) && AllIn(g, SMMU_FIRST) && |SMMU_FIRST| == 3
    ensures PmcgsReady(g, SMMU_FIRST, 3) && SingleRun(g, SMMU_FIRST, 3)
    ensures ProperMaps(g, Listed(g, SMMU_FIRST, 3).owners) && 100 in g.nodes
    ensures Collide(g, 0, 0, 100, 0, false) && !Present(g, Listed(g, SMMU_FIRST, 3).owners, 100)
    ensures forall x: nat, its :: !TrueOverlap(Build(g, SMMU_FIRST, 3).blocks, x, its)
  {
    MergedNamesValid(g, p, s, t);
    NoPmcgs(g, SMMU_FIRST, 3);
    MergedNamesTargets(g, p, s, t);
    MergedNamesCollide(g, p, s, t);
    MergedNamesListed(g, p, s, t);
    MergedNamesFair(g, Listed(g, SMMU_FIRST, 3), p, s, t);
    hide Build, Listed, MergedNames, SMMU_FIRST, Image, Wired, SingleRun, PmcgsReady, TargetsDetermined, Collide,
      TrueOverlap, Present, ProperMaps, Distinct, RcsApart;
    RunSingleIff(g, SMMU_FIRST, 3);
    RunImage(g, SMMU_FIRST, 3);
    forall x: nat, its ensures !TrueOverlap(Build(g, SMMU_FIRST, 3).blocks, x, its) {
      OneEntry(g, Build(g, SMMU_FIRST, 3).blocks, Listed(g, SMMU_FIRST, 3), x, its);
    }
  }

  lemma {:induction false} MergedNamesFair(g: Iort, a: Names, p: string, s: string, t: string)
    requires g == MergedNames(p, s, t) && TwoNames(a) && g.At(0) != g.At(100) && g.At(0) != g.At(200)
    ensures Distinct(g, a.owners) && ProperMaps(g, a.owners) && 100 in g.nodes && !Present(g, a.owners, 100)
  {
    assert Proper(AsEntry(g.At(0).Maps()[0])) && |g.At(0).Maps()| == 1 && |g.At(200).Maps()| == 0;
    assert g.At(100) != g.At(200);
  }
}
