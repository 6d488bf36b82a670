/**
 What adding an IORT node does to the table, on values: the state is the list of blocks laid out
 before the cursor (an unfinished ancestor is one of them), the number of blocks counted so far,
 and the per-type counters. A block is counted only when it is finished, so while d ancestors are
 being filled the count is d short of the list.
 */
module IovirtBuild {
  import opened Iort
  import opened IovirtLayout

  datatype Counts = Counts(itsGroups: nat, namedComponents: nat, pciRcs: nat, smmus: nat, pmcgs: nat)
  {
    function Sum(): nat { itsGroups + namedComponents + pciRcs + smmus + pmcgs }

    function Bump(kind: Kind): Counts {
      match kind
      case ItsGroup => this.(itsGroups := itsGroups + 1)
      case NamedComponent => this.(namedComponents := namedComponents + 1)
      case RootComplex => this.(pciRcs := pciRcs + 1)
      case Smmu => this.(smmus := smmus + 1)
      case SmmuV3 => this.(smmus := smmus + 1)
      case Pmcg => this.(pmcgs := pmcgs + 1)
      case Invalid(_) => this
    }
  }

  datatype State = State(blocks: seq<Block>, numBlocks: nat, counts: Counts)

  /** The table before any node is entered. */
  function Empty(): (st: State)
    ensures |st.blocks| == 0 && st.numBlocks == 0 && st.counts.Sum() == 0
  {
    State([], 0, Counts(0, 0, 0, 0, 0))
  }

  const INVALID_REF: nat := 0xFFFF_FFFF

  // ------------------------------------------------------------------ the header of a node

  function KindOf(node: Node): Kind {
    match node
    case ItsNode(_) => ItsGroup
    case NamedNode(_, _) => NamedComponent
    case RcNode(_, _, _, _) => RootComplex
    case SmmuNode(_, _, _) => Smmu
    case SmmuV3Node(_, _) => SmmuV3
    case PmcgNode(_, _, _, _) => Pmcg
    case BadNode(c) => Invalid(c)
  }

  /** Character c of a string that zeros follow. */
  function Padded(s: string, c: nat): char { if c < |s| then s[c] else '\0' }

  /** strncpy into a zeroed array of sixteen characters. */
  function Name16(s: string): (r: string)
    ensures |r| == 16 && forall c :: 0 <= c < 16 ==> r[c] == Padded(s, c)
  {
    if |s| >= 16 then s[..16] else s + seq(16 - |s|, _ => '\0')
  }

  function NumMaps(node: Node): nat {
    if node.ItsNode? then (|node.ids| + 3) / 4 else |node.Maps()|
  }

  /** The data field as first written; `ref` is where a PMCG's node reference points. */
  function DataOf(node: Node, ref: nat): NodeData {
    match node
    case ItsNode(ids) => ItsData(|ids|)
    case NamedNode(name, _) => NameData(Name16(name))
    case RcNode(segment, cca, ats, _) => RcData(segment, cca, ats, 0)
    case SmmuNode(base, _, _) => SmmuData(2, base)
    case SmmuV3Node(base, _) => SmmuData(3, base)
    case PmcgNode(pageBase, gsiv, _, _) => PmcgData(pageBase, gsiv, ref)
    case BadNode(_) => ZeroData
  }

  function Head(node: Node, ref: nat): (b: Block)
    ensures b.WellFormed() && b.maps == []
  {
    Block(KindOf(node), NumMaps(node), DataOf(node, ref), NO_FLAGS, if node.ItsNode? then node.ids else [], [])
  }

  /** The low 32-bit words of the context interrupts are pairwise distinct. */
  ghost predicate CtxDistinct(ctxInts: seq<nat>) {
    forall i, j :: 0 <= i < j < |ctxInts| ==> ctxInts[i] % TWO32 != ctxInts[j] % TWO32
  }

  function Words(q: int): int { q * 0x1_0000_0000 }

  /** The two numbers differ in their upper words only. */
  ghost predicate SameLowWord(a: nat, b: nat) { exists q :: a == b + Words(q) }

  lemma {:induction false} LowWord(a: nat, b: nat)
    ensures SameLowWord(a, b) <==> a % TWO32 == b % TWO32
  {
    if a % TWO32 == b % TWO32 { assert a == b + Words(a / TWO32 - b / TWO32); }
  }

  /** So there is a clash exactly if two of the context interrupts differ in nothing below 2^32. */
  lemma {:induction false} CtxDistinctExact(ctxInts: seq<nat>)
    ensures CtxDistinct(ctxInts) <==>
            forall i, j :: 0 <= i < j < |ctxInts| ==> !SameLowWord(ctxInts[i], ctxInts[j])
  {
    forall i, j | 0 <= i < j < |ctxInts|
      ensures SameLowWord(ctxInts[i], ctxInts[j]) <==> ctxInts[i] % TWO32 == ctxInts[j] % TWO32
    {
      LowWord(ctxInts[i], ctxInts[j]);
    }
    hide SameLowWord;
  }

  ghost predicate CtxClash(node: Node) { node.SmmuNode? && !CtxDistinct(node.ctxInts) }

  // ------------------------------------------------------------------ looking a header up

  /** First match among the first n blocks, or -1. */
  function Search(key: Block, blocks: seq<Block>, n: nat): (r: int)
    requires n <= |blocks|
    ensures -1 <= r < n
    ensures r >= 0 ==> Matches(key, blocks[r])
  {
    if n == 0 then -1
    else
      var r := Search(key, blocks, n - 1);
      if r >= 0 then r else if Matches(key, blocks[n - 1]) then n - 1 else -1
  }

  /** It is the first match, and -1 means there is none. */
  lemma {:induction false} SearchIsFirst(key: Block, blocks: seq<Block>, n: nat, i: nat)
    requires i < n <= |blocks| && Matches(key, blocks[i])
    ensures 0 <= Search(key, blocks, n) <= i
    decreases n
  {
    if i < n - 1 { SearchIsFirst(key, blocks, n - 1, i); }
  }

  /** A match with none before it is the answer however far the search may go on. */
  lemma {:induction false} SearchStops(key: Block, blocks: seq<Block>, i: nat, n: nat)
    requires i < n <= |blocks| && Search(key, blocks, i) == -1 && Matches(key, blocks[i])
    ensures Search(key, blocks, n) == i
    decreases n
  {
    if i < n - 1 { SearchStops(key, blocks, i, n - 1); }
  }

  /** Itself: the walk ran past the laid-out blocks into the key's own scratch copy at the cursor. */
  datatype Found = Nowhere | InTable(index: nat) | Itself

  /** How many laid-out blocks the walk of find_block visits. */
  function Visible(st: State): nat {
    if st.numBlocks <= |st.blocks| then st.numBlocks else |st.blocks|
  }

  function Find(key: Block, st: State): (f: Found)
    ensures f.InTable? ==> f.index < |st.blocks| && Matches(key, st.blocks[f.index])
    ensures f.Itself? ==> st.numBlocks > |st.blocks|
  {
    var r := Search(key, st.blocks, Visible(st));
    if r >= 0 then InTable(r) else if st.numBlocks > |st.blocks| then Itself else Nowhere
  }

  /** Offset returned for a lookup: 0 when nothing was found. */
  function FoundOffset(f: Found, st: State): nat
    requires f.InTable? ==> f.index < |st.blocks|
  {
    match f
    case Nowhere => 0
    case InTable(i) => Off(st.blocks, i)
    case Itself => End(st.blocks)
  }

  // ------------------------------------------------------------------ adding a node

  /** Result of adding: new state, offset returned, header found at that offset, highest arena cell touched plus one. */
  datatype Added = Added(st: State, ref: nat, seen: Block, peak: nat)

  datatype Filled = Filled(st: State, peak: nat)

  /** Cells the header written at the cursor may touch. */
  function Scratch(b: Block): nat { if b.kind == ItsGroup then b.Size() else HDR }

  ghost function Add(g: Iort, n: nat, st: State): (r: Added)
    requires g.Valid() && n in g.nodes
    ensures |st.blocks| <= |r.st.blocks| && r.st.blocks[..|st.blocks|] == st.blocks
    ensures st.numBlocks <= r.st.numBlocks
    decreases g.Rank(n), 2, 0
  {
    var node := g.nodes[n];
    if node.BadNode? then Added(st, INVALID_REF, Head(node, 0), End(st.blocks) + HDR)
    else if node.PmcgNode? then
      var t := AddPmcgTarget(g, n, st);
      AddKeyed(g, n, st.(numBlocks := t.st.numBlocks, counts := t.st.counts), Head(node, t.ref), t.peak)
    else AddKeyed(g, n, st, Head(node, 0), 0)
  }

  /** A PMCG's header while its target is being entered: the raw reference in place, the flags not written yet. */
  function PmcgScratch(node: Node): (b: Block)
    requires node.PmcgNode?
    ensures b.WellFormed() && b.maps == [] && b.kind == Pmcg && b.Size() == Head(node, node.nodeRef).Size()
  {
    Head(node, node.nodeRef).(flags := Unset)
  }

  /** A PMCG enters its target just after its own header, before looking itself up. */
  ghost function AddPmcgTarget(g: Iort, n: nat, st: State): (r: Added)
    requires g.Valid() && n in g.nodes && g.nodes[n].PmcgNode?
    ensures |st.blocks| + 1 <= |r.st.blocks| && r.st.blocks[..|st.blocks| + 1] == st.blocks + [PmcgScratch(g.nodes[n])]
    ensures st.numBlocks <= r.st.numBlocks
    decreases g.Rank(n), 1, 0
  {
    assert g.ValidNode(n);
    Add(g, g.nodes[n].nodeRef, st.(blocks := st.blocks + [PmcgScratch(g.nodes[n])]))
  }

  /** From the lookup on: reuse a matching block, or lay a new one down and fill in its mappings. */
  ghost function AddKeyed(g: Iort, n: nat, st: State, key: Block, peak: nat): (r: Added)
    requires g.Valid() && n in g.nodes && !g.nodes[n].BadNode?
    requires key.WellFormed() && key.kind == KindOf(g.nodes[n]) && key.maps == [] && key.numMaps == NumMaps(g.nodes[n])
    ensures |st.blocks| <= |r.st.blocks| && r.st.blocks[..|st.blocks|] == st.blocks
    ensures st.numBlocks <= r.st.numBlocks
    ensures r.peak >= peak && r.peak >= End(st.blocks) + Scratch(key)
    decreases g.Rank(n), 1, 0
  {
    var peak1 := Max(peak, End(st.blocks) + Scratch(key));
    match Find(key, st)
    case InTable(i) => Added(st, Off(st.blocks, i), st.blocks[i], peak1)
    case Itself => Added(st, End(st.blocks), key, peak1)
    case Nowhere =>
      var k := |st.blocks|;
      var f := Fill(g, n, 0, k, st.(blocks := st.blocks + [Own(g, n, key)]));
      Added(f.st.(numBlocks := f.st.numBlocks + 1, counts := f.st.counts.Bump(key.kind)),
            Off(st.blocks, k), f.st.blocks[k], Max(peak1, Max(End(st.blocks) + key.Size(), f.peak)))
  }

  /** The block as laid down, before its mappings are filled in. */
  ghost function Own(g: Iort, n: nat, key: Block): Block
    requires n in g.nodes
  {
    key.(flags := NO_FLAGS.(ctxIntClash := CtxClash(g.nodes[n])))
  }

  /** The base address read off the header a mapping leads to; 0 unless it is an SMMU. */
  function SmmuBaseOf(seen: Block): nat {
    if seen.IsSmmu() && seen.data.SmmuData? then seen.data.base else 0
  }

  /** The block after one more mapping: where the target was placed and, for an RC, the SMMU base behind it. */
  function WithEntry(b: Block, m: Mapping, ref: nat, seen: Block): Block {
    b.(maps := b.maps + [Entry(m.inputBase, m.idCount, m.outputBase, ref)],
       data := if b.data.RcData? then b.data.(smmuBase := SmmuBaseOf(seen)) else b.data)
  }

  /** The state after one entry of block k. */
  ghost function AfterEntry(m: Mapping, k: nat, r: Added): State
    requires k < |r.st.blocks|
  {
    r.st.(blocks := r.st.blocks[k := WithEntry(r.st.blocks[k], m, r.ref, r.seen)])
  }

  /** Fills in mappings j, j+1, ... of block k, adding each target in turn. */
  ghost function Fill(g: Iort, n: nat, j: nat, k: nat, st: State): (f: Filled)
    requires g.Valid() && n in g.nodes && j <= |g.nodes[n].Maps()| && k < |st.blocks|
    ensures |st.blocks| <= |f.st.blocks|
    ensures forall i :: 0 <= i < |st.blocks| && i != k ==> f.st.blocks[i] == st.blocks[i]
    ensures f.st.blocks[k].numMaps == st.blocks[k].numMaps && f.st.blocks[k].kind == st.blocks[k].kind
    ensures f.st.blocks[k].flags == st.blocks[k].flags && f.st.blocks[k].ids == st.blocks[k].ids
    ensures st.numBlocks <= f.st.numBlocks
    decreases g.Rank(n), 0, |g.nodes[n].Maps()| - j
  {
    assert g.ValidNode(n);
    if j == |g.nodes[n].Maps()| then Filled(st, 0)
    else
      var m := g.nodes[n].Maps()[j];
      var r := Add(g, m.outputRef, st);
      assert st.blocks[k] == r.st.blocks[..|st.blocks|][k];
      var f := Fill(g, n, j + 1, k, AfterEntry(m, k, r));
      Filled(f.st, Max(r.peak, f.peak))
  }

  /** Nodes other than PMCGs go straight to the lookup. */
  lemma {:induction false} AddIsLookup(g: Iort, n: nat, st: State)
    requires g.Valid() && n in g.nodes && !g.nodes[n].BadNode? && !g.nodes[n].PmcgNode?
    ensures Add(g, n, st) == AddKeyed(g, n, st, Head(g.nodes[n], 0), 0)
  {}

  /** A node of unknown type changes nothing and answers with an offset of 0xFFFFFFFF. */
  lemma {:induction false} UnknownType(g: Iort, n: nat, st: State)
    requires g.Valid() && n in g.nodes && g.nodes[n].BadNode?
    ensures Add(g, n, st).st == st && Add(g, n, st).ref == 0xFFFF_FFFF
  {}

  /** What a lookup that finds nothing leads to. */
  lemma {:induction false} FreshResult(g: Iort, n: nat, st: State, key: Block, peak: nat)
    requires g.Valid() && n in g.nodes && !g.nodes[n].BadNode?
    requires key.WellFormed() && key.kind == KindOf(g.nodes[n]) && key.maps == [] && key.numMaps == NumMaps(g.nodes[n])
    requires Find(key, st).Nowhere?
    ensures var k := |st.blocks|;
            var f := Fill(g, n, 0, k, st.(blocks := st.blocks + [Own(g, n, key)])).st;
            var r := AddKeyed(g, n, st, key, peak);
            && r.st == f.(numBlocks := f.numBlocks + 1, counts := f.counts.Bump(key.kind))
            && r.ref == End(st.blocks) == Off(f.blocks, k) && r.seen == f.blocks[k]
  {
    var k := |st.blocks|;
    var f := Fill(g, n, 0, k, st.(blocks := st.blocks + [Own(g, n, key)])).st;
    OffSame(st.blocks, f.blocks, k);
  }

  /** A PMCG's target goes straight to the lookup, behind the PMCG's own header. */
  lemma {:induction false} TargetLookup(g: Iort, n: nat, st: State)
    requires g.Valid() && n in g.nodes && g.nodes[n].PmcgNode?
    ensures var ref := g.nodes[n].nodeRef;
            && g.ValidRef(n, ref)
            && AddPmcgTarget(g, n, st) ==
               AddKeyed(g, ref, st.(blocks := st.blocks + [PmcgScratch(g.nodes[n])]), Head(g.At(ref), 0), 0)
  {
    assert g.ValidNode(n);
  }

  /** What a lookup that finds something leads to. */
  lemma {:induction false} FoundResult(g: Iort, n: nat, st: State, key: Block, peak: nat)
    requires g.Valid() && n in g.nodes && !g.nodes[n].BadNode?
    requires key.WellFormed() && key.kind == KindOf(g.nodes[n]) && key.maps == [] && key.numMaps == NumMaps(g.nodes[n])
    requires !Find(key, st).Nowhere?
    ensures var r := AddKeyed(g, n, st, key, peak);
            r.st == st && r.ref == FoundOffset(Find(key, st), st)
            && r.seen == if Find(key, st).InTable? then st.blocks[Find(key, st).index] else key
  {}

  lemma {:induction false} FillDone(g: Iort, n: nat, k: nat, st: State)
    requires g.Valid() && n in g.nodes && k < |st.blocks|
    ensures Fill(g, n, |g.nodes[n].Maps()|, k, st) == Filled(st, 0)
  {}

  /** One unrolling of the mapping loop. */
  lemma {:induction false} FillStep(g: Iort, n: nat, i: nat, k: nat, st: State)
    requires g.Valid() && n in g.nodes && i < |g.nodes[n].Maps()| && k < |st.blocks|
    ensures g.ValidRef(n, g.nodes[n].Maps()[i].outputRef)
    ensures var m := g.nodes[n].Maps()[i];
            var r := Add(g, m.outputRef, st);
            && k < |r.st.blocks| && r.st.blocks[k] == st.blocks[k]
            && Off(AfterEntry(m, k, r).blocks, k) == Off(st.blocks, k)
            && Fill(g, n, i, k, st).st == Fill(g, n, i + 1, k, AfterEntry(m, k, r)).st
            && Fill(g, n, i, k, st).peak == Max(r.peak, Fill(g, n, i + 1, k, AfterEntry(m, k, r)).peak)
  {
    var m := g.nodes[n].Maps()[i];
    assert g.ValidNode(n);
    var r := Add(g, m.outputRef, st);
    assert r.st.blocks[..|st.blocks|][k] == st.blocks[k];
    OffSame(st.blocks, r.st.blocks, k);
    OffSame(r.st.blocks, AfterEntry(m, k, r).blocks, k);
  }
}
