/**
 What the finished table records of the nodes: the names of the named components, how many nodes of each type
 have a block, and the SMMU base that a root complex carries.
 */
module IovirtNodes {
  import opened Iort
  import opened IovirtLayout
  import opened IovirtBuild
  import opened IovirtCounts
  import opened IovirtNames
  import opened IovirtImage
  import opened IovirtRun

  // ------------------------------------------------------------------ every node walked

  /** A node walked has a block with its header; of a node with equal keys, if lookups took that one for it. */
  lemma {:induction false} NodeRecorded(g: Iort, order: seq<nat>, k: nat, i: nat) returns (x: nat)
    requires g.Valid() && RcsApart(g) && AllIn(g, order) && i < k <= |order| && PmcgsReady(g, order, k)
    requires !g.nodes[order[i]].BadNode?
    ensures var blocks, owners := Build(g, order, k).blocks, Listed(g, order, k).owners;
            x < |blocks| == |owners| && Stands(g, owners[x], order[i]) && HeadOf(g.At(owners[x]), blocks[x])
  {
    hide Build, Listed, PmcgsReady, HeadOf, Stands, Wired;
    RunImage(g, order, k);
    ListedRepresents(g, order, k, i);
    x :| 0 <= x < |Listed(g, order, k).owners| && Stands(g, Listed(g, order, k).owners[x], order[i]);
    assert HeaderFaithful(g, Build(g, order, k).blocks, Listed(g, order, k).owners, x);
  }

  // ------------------------------------------------------------------ named components

  /** Block x is a named component's, with the first sixteen characters of s as its name, zeros behind the end. */
  ghost predicate NamedBlock(blocks: seq<Block>, x: nat, s: string) {
    && x < |blocks| && blocks[x].kind == NamedComponent && blocks[x].data.NameData? && |blocks[x].data.name| == 16
    && forall c :: 0 <= c < 16 ==> blocks[x].data.name[c] == if c < |s| then s[c] else '\0'
  }

  lemma {:induction false} NameKept(node: Node, s: string, blocks: seq<Block>, x: nat)
    requires x < |blocks| && HeadOf(node, blocks[x]) && node.NamedNode? && SameName(node.name, s)
    ensures NamedBlock(blocks, x, s)
  {
    forall c | 0 <= c < 16 ensures blocks[x].data.name[c] == if c < |s| then s[c] else '\0' {
      assert Padded(node.name, c) == Padded(s, c);
    }
  }

  /** Every named component walked has a block that gives its name and its number of mappings. */
  lemma {:induction false} NameRecorded(g: Iort, order: seq<nat>, k: nat, i: nat) returns (x: nat)
    requires g.Valid() && RcsApart(g) && AllIn(g, order) && i < k <= |order| && PmcgsReady(g, order, k)
    requires g.nodes[order[i]].NamedNode?
    ensures NamedBlock(Build(g, order, k).blocks, x, g.nodes[order[i]].name)
    ensures Build(g, order, k).blocks[x].numMaps == |g.nodes[order[i]].maps|
  {
    hide Build, Listed, PmcgsReady;
    x := NodeRecorded(g, order, k, i);
    var o := Listed(g, order, k).owners[x];
    assert SameHead(g.At(o), g.nodes[order[i]]);
    NameKept(g.At(o), g.nodes[order[i]].name, Build(g, order, k).blocks, x);
  }

  /** Two named components have two blocks if their names differ within sixteen characters. */
  lemma {:induction false} NamesApart(g: Iort, order: seq<nat>, k: nat, i: nat, j: nat) returns (x: nat, y: nat)
    requires g.Valid() && RcsApart(g) && AllIn(g, order) && i < k <= |order| && j < k && PmcgsReady(g, order, k)
    requires g.nodes[order[i]].NamedNode? && g.nodes[order[j]].NamedNode?
    requires !SameName(g.nodes[order[i]].name, g.nodes[order[j]].name)
    ensures NamedBlock(Build(g, order, k).blocks, x, g.nodes[order[i]].name)
    ensures NamedBlock(Build(g, order, k).blocks, y, g.nodes[order[j]].name)
    ensures x != y
  {
    x := NameRecorded(g, order, k, i);
    y := NameRecorded(g, order, k, j);
    hide Build, PmcgsReady;
    if x == y { NameOnce(Build(g, order, k).blocks, x, g.nodes[order[i]].name, g.nodes[order[j]].name); }
  }

  lemma {:induction false} NameOnce(blocks: seq<Block>, x: nat, s: string, t: string)
    requires NamedBlock(blocks, x, s) && NamedBlock(blocks, x, t)
    ensures SameName(s, t)
  {
    forall c | 0 <= c < 16 ensures Padded(s, c) == Padded(t, c) {
      assert blocks[x].data.name[c] == if c < |s| then s[c] else '\0';
    }
  }

  /** So have any two with different names of at most sixteen characters. */
  lemma {:induction false} ShortNamesApart(g: Iort, order: seq<nat>, k: nat, i: nat, j: nat) returns (x: nat, y: nat)
    requires g.Valid() && RcsApart(g) && AllIn(g, order) && i < k <= |order| && j < k && PmcgsReady(g, order, k)
    requires g.nodes[order[i]].NamedNode? && g.nodes[order[j]].NamedNode?
    requires var s, t := g.nodes[order[i]].name, g.nodes[order[j]].name;
             |s| <= 16 && |t| <= 16 && '\0' !in s && '\0' !in t && s != t
    ensures NamedBlock(Build(g, order, k).blocks, x, g.nodes[order[i]].name)
    ensures NamedBlock(Build(g, order, k).blocks, y, g.nodes[order[j]].name)
    ensures x != y
  {
    hide Build, PmcgsReady, NamedBlock;
    ShortNames(g.nodes[order[i]].name, g.nodes[order[j]].name);
    x, y := NamesApart(g, order, k, i, j);
  }

  // ------------------------------------------------------------------ how many blocks of each type

  /** The nodes that the counter of this type of block counts; both kinds of SMMU share one. */
  predicate CountedAs(kind: Kind, node: Node) {
    match kind
    case ItsGroup => node.ItsNode?
    case NamedComponent => node.NamedNode?
    case RootComplex => node.RcNode?
    case Smmu => node.SmmuNode? || node.SmmuV3Node?
    case SmmuV3 => node.SmmuNode? || node.SmmuV3Node?
    case Pmcg => node.PmcgNode?
    case Invalid(_) => false
  }

  ghost function HowMany(g: Iort, owner: seq<nat>, n: nat, kind: Kind): nat
    requires n <= |owner|
  {
    if n == 0 then 0 else HowMany(g, owner, n - 1, kind) + if CountedAs(kind, g.At(owner[n - 1])) then 1 else 0
  }

  lemma {:induction false} TallyByNode(g: Iort, blocks: seq<Block>, owner: seq<nat>, n: nat, kind: Kind)
    requires n <= |blocks| == |owner| && !kind.Invalid?
    requires forall i :: 0 <= i < n ==> HeadOf(g.At(owner[i]), blocks[i])
    ensures TallyTo(blocks, n, kind) == HowMany(g, owner, n, kind)
    decreases n
  {
    if n > 0 {
      TallyByNode(g, blocks, owner, n - 1, kind);
      KindByNode(g.At(owner[n - 1]), blocks[n - 1], kind);
    }
    hide HeadOf, CountedAs, SameCounter;
  }

  lemma {:induction false} KindByNode(node: Node, b: Block, kind: Kind)
    requires HeadOf(node, b) && !kind.Invalid?
    ensures SameCounter(b.kind, kind) <==> CountedAs(kind, node)
  {}

  /** The five counters of the finished table: how many of the nodes with a block are of which type. */
  lemma {:induction false} CountersByNode(g: Iort, order: seq<nat>, k: nat)
    requires g.Valid() && RcsApart(g) && AllIn(g, order) && k <= |order| && PmcgsReady(g, order, k)
    ensures var c, o := Build(g, order, k).counts, Listed(g, order, k).owners;
            && c.itsGroups == HowMany(g, o, |o|, ItsGroup) && c.namedComponents == HowMany(g, o, |o|, NamedComponent)
            && c.pciRcs == HowMany(g, o, |o|, RootComplex) && c.smmus == HowMany(g, o, |o|, Smmu)
            && c.pmcgs == HowMany(g, o, |o|, Pmcg)
  {
    hide Build, Listed, PmcgsReady, HowMany, TallyTo, HeadOf, Wired;
    RunCounts(g, order, k);
    RunImage(g, order, k);
    var b, o := Build(g, order, k).blocks, Listed(g, order, k).owners;
    forall i | 0 <= i < |b| ensures HeadOf(g.At(o[i]), b[i]) { assert HeaderFaithful(g, b, o, i); }
    hide Image;
    TallyByNode(g, b, o, |b|, ItsGroup);
    TallyByNode(g, b, o, |b|, NamedComponent);
    TallyByNode(g, b, o, |b|, RootComplex);
    TallyByNode(g, b, o, |b|, Smmu);
    TallyByNode(g, b, o, |b|, Pmcg);
  }

  // ------------------------------------------------------------------ root complexes behind SMMUs

  /** The node that the last mapping leads to, if it is an SMMU. */
  ghost predicate LastBehindSmmu(g: Iort, node: Node, base: nat) {
    |node.Maps()| > 0 && match g.At(node.Maps()[|node.Maps()| - 1].outputRef)
                         case SmmuNode(b, _, _) => b == base
                         case SmmuV3Node(b, _) => b == base
                         case _ => false
  }

  /**
   The block of a root complex carries the base of the SMMU that its last mapping leads to, and 0 if it has no
   mapping or the last one leads elsewhere.
   */
  lemma {:induction false} RcBase(g: Iort, blocks: seq<Block>, owner: seq<nat>, x: nat)
    requires Image(g, blocks, owner, {}) && x < |blocks| && g.At(owner[x]).RcNode?
    ensures blocks[x].data.RcData?
    ensures LastBehindSmmu(g, g.At(owner[x]), blocks[x].data.smmuBase) ||
            (blocks[x].data.smmuBase == 0 && forall b :: !LastBehindSmmu(g, g.At(owner[x]), b))
  {
    assert HeaderFaithful(g, blocks, owner, x) && Faithful(g, blocks, owner, x);
  }

  /** So a root complex with a block is found again unless its last mapping leads to an SMMU of a base other than 0. */
  lemma {:induction false} RecognisableIff(g: Iort, n: nat)
    requires g.At(n).RcNode?
    ensures Recognisable(g, n) <==> forall b :: LastBehindSmmu(g, g.At(n), b) ==> b == 0
  {
    if !Recognisable(g, n) {
      assert LastBehindSmmu(g, g.At(n), SmmuBehind(g, g.At(n), |g.At(n).Maps()|));
    }
  }
}
