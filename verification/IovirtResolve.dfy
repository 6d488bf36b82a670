/**
 From a requester to its SMMU. The query on the finished table is compared with resolution done
 directly on the IORT nodes.
 */
module IovirtResolve {
  import opened Iort
  import opened IovirtLayout
  import opened IovirtNames
  import opened IovirtImage
  import opened IovirtOverlap

  const NOT_FOUND: nat := 0xFFFF_FFFF

  /** The range test of the query, in C's 32-bit arithmetic; the count is inclusive here. */
  predicate InRange(id: u32, base: u32, count: u32) {
    id >= base && id <= Add32(base, count)
  }

  /** It is membership in [base, base + count], except that a range running past 2^32 contains nothing. */
  lemma {:induction false} InRangeExact(id: u32, base: u32, count: u32)
    ensures InRange(id, base, count) <==> base + count < TWO32 && base <= id <= base + count
  {
    if base + count >= TWO32 { assert (base + count) % TWO32 == base + count - TWO32; }
  }

  /** The identifier a mapping turns `id` into. */
  function Translate(id: u32, inputBase: u32, outputBase: u32): u32 {
    Add32(Sub32(id, inputBase), outputBase)
  }

  /** In plain integers: the offset into the input range, counted from the start of the output range, modulo 2^32. */
  lemma {:induction false} TranslateExact(id: u32, inputBase: u32, outputBase: u32)
    requires inputBase <= id
    ensures outputBase + (id - inputBase) < 0x1_0000_0000 ==>
              Translate(id, inputBase, outputBase) == outputBase + (id - inputBase)
    ensures outputBase + (id - inputBase) >= 0x1_0000_0000 ==>
              Translate(id, inputBase, outputBase) == outputBase + (id - inputBase) - 0x1_0000_0000
  {}

  // ------------------------------------------------------------------ on the graph

  predicate Covers(m: Mapping, id: u32) { InRange(id, m.inputBase, m.idCount) }

  ghost predicate FirstCover(maps: seq<Mapping>, id: u32, j: nat) {
    j < |maps| && Covers(maps[j], id) && forall i :: 0 <= i < j ==> !Covers(maps[i], id)
  }

  /** The node is the RC of this segment and one of its mappings takes rid. */
  ghost predicate Serves(node: Node, seg: u32, rid: u32) {
    node.RcNode? && node.segment == seg && exists j :: 0 <= j < |node.maps| && Covers(node.maps[j], rid)
  }

  ghost predicate LastServing(nodes: seq<Node>, seg: u32, rid: u32, i: nat) {
    i < |nodes| && Serves(nodes[i], seg, rid) && forall l :: i < l < |nodes| ==> !Serves(nodes[l], seg, rid)
  }

  ghost predicate TakenBy(node: Node, id: u32) {
    exists k :: 0 <= k < |node.Maps()| && Covers(node.Maps()[k], id)
  }

  /** Base of node o, if that is an SMMU that takes the identifier the mapping turns rid into. */
  ghost function BaseVia(g: Iort, o: nat, m: Mapping, rid: u32): nat {
    if g.At(o).IsSmmu() && TakenBy(g.At(o), Translate(rid, m.inputBase, m.outputBase)) then g.At(o).base else 0
  }

  /** The same for the node the mapping leads to. */
  ghost function SmmuBaseFor(g: Iort, m: Mapping, rid: u32): nat { BaseVia(g, m.outputRef, m, rid) }

  /** Unless m leads to something other than an SMMU, or to base 0, node o and m's target agree about the identifier. */
  ghost predicate Agrees(g: Iort, o: nat, m: Mapping, rid: u32) {
    var t, sid := g.At(m.outputRef), Translate(rid, m.inputBase, m.outputBase);
    t.IsSmmu() && t.base != 0 ==> (TakenBy(g.At(o), sid) <==> TakenBy(t, sid))
  }

  /** A node that stands in for the target of a mapping answers as the target does exactly if they agree. */
  lemma {:induction false} StandInAnswers(g: Iort, o: nat, m: Mapping, rid: u32)
    requires Stands(g, o, m.outputRef)
    ensures BaseVia(g, o, m, rid) == SmmuBaseFor(g, m, rid) <==> Agrees(g, o, m, rid)
  {
    SmmuHeads(g.At(o), g.At(m.outputRef));
    hide SameHead, TakenBy, Translate;
  }

  /** The identifier lies in the range that starts at base, count + 1 long; a range past 2^32 counts for nothing. */
  predicate Within(id: int, base: int, count: int) { base <= id <= base + count < 0x1_0000_0000 }

  /** An SMMU whose mappings have a range with this identifier in it, and its base. */
  ghost predicate SmmuTaking(node: Node, out: int, base: nat) {
    match node
    case SmmuNode(b, _, maps) =>
      b == base && exists k :: 0 <= k < |maps| && Within(out, maps[k].inputBase, maps[k].idCount)
    case SmmuV3Node(b, maps) =>
      b == base && exists k :: 0 <= k < |maps| && Within(out, maps[k].inputBase, maps[k].idCount)
    case _ => false
  }

  /** The identifier that a mapping gives to rid in plain integers, once past 2^32 apart. */
  function Output(m: Mapping, rid: u32): int {
    var out := m.outputBase + (rid - m.inputBase);
    if out < 0x1_0000_0000 then out else out - 0x1_0000_0000
  }

  /**
   The second level without machine arithmetic: behind a mapping that takes rid the answer is an SMMU's base if
   one of its ranges holds the output identifier, and otherwise 0.
   */
  lemma {:induction false} SecondLevel(g: Iort, m: Mapping, rid: u32)
    requires Within(rid, m.inputBase, m.idCount)
    ensures SmmuTaking(g.At(m.outputRef), Output(m, rid), SmmuBaseFor(g, m, rid)) ||
            (SmmuBaseFor(g, m, rid) == 0 && forall b :: !SmmuTaking(g.At(m.outputRef), Output(m, rid), b))
  {
    TranslateExact(rid, m.inputBase, m.outputBase);
    var t, sid := g.At(m.outputRef), Translate(rid, m.inputBase, m.outputBase);
    forall k | 0 <= k < |t.Maps()|
      ensures Covers(t.Maps()[k], sid) <==> Within(sid, t.Maps()[k].inputBase, t.Maps()[k].idCount)
    {
      InRangeExact(sid, t.Maps()[k].inputBase, t.Maps()[k].idCount);
    }
    hide Covers, Within, Translate;
    if t.IsSmmu() {
      if k :| 0 <= k < |t.Maps()| && Covers(t.Maps()[k], sid) {
        assert Within(sid, t.maps[k].inputBase, t.maps[k].idCount);
      }
      if k :| 0 <= k < |t.maps| && Within(sid, t.maps[k].inputBase, t.maps[k].idCount) {
        assert Covers(t.Maps()[k], sid);
      }
    }
  }

  lemma {:induction false} SmmuHeads(a: Node, b: Node)
    requires SameHead(a, b)
    ensures a.IsSmmu() == b.IsSmmu() && (a.IsSmmu() ==> a.base == b.base)
  {}

  /**
   What the answer should be: the last RC that serves the requester, its first mapping that does, then the
   SMMU's input ranges.
   */
  ghost predicate Resolves(g: Iort, nodes: seq<Node>, seg: u32, rid: u32, ans: nat) {
    if exists i :: 0 <= i < |nodes| && Serves(nodes[i], seg, rid) then
      exists i: nat, j: nat :: LastServing(nodes, seg, rid, i) && FirstCover(nodes[i].maps, rid, j) &&
        ans == SmmuBaseFor(g, nodes[i].maps[j], rid)
    else ans == NOT_FOUND
  }

  /** There is exactly one answer. */
  lemma {:induction false} ResolvesUnique(g: Iort, nodes: seq<Node>, seg: u32, rid: u32, a: nat, b: nat)
    requires Resolves(g, nodes, seg, rid, a) && Resolves(g, nodes, seg, rid, b)
    ensures a == b
  {
    if exists i :: 0 <= i < |nodes| && Serves(nodes[i], seg, rid) {
      var i: nat, j: nat :| LastServing(nodes, seg, rid, i) && FirstCover(nodes[i].maps, rid, j) &&
        a == SmmuBaseFor(g, nodes[i].maps[j], rid);
      var k: nat, l: nat :| LastServing(nodes, seg, rid, k) && FirstCover(nodes[k].maps, rid, l) &&
        b == SmmuBaseFor(g, nodes[k].maps[l], rid);
      assert i == k && j == l;
    }
  }

  // ------------------------------------------------------------------ on the table

  predicate Takes(e: Entry, id: u32) { InRange(id, e.inputBase, e.idCount) }

  ghost predicate FirstTaking(maps: seq<Entry>, id: u32, j: nat) {
    j < |maps| && Takes(maps[j], id) && forall i :: 0 <= i < j ==> !Takes(maps[i], id)
  }

  ghost predicate BlockServes(b: Block, seg: u32, rid: u32) {
    && b.kind == RootComplex && b.data.RcData? && b.data.segment == seg
    && exists j :: 0 <= j < |b.maps| && Takes(b.maps[j], rid)
  }

  ghost predicate LastBlockServing(blocks: seq<Block>, n: nat, seg: u32, rid: u32, i: nat) {
    i < n <= |blocks| && BlockServes(blocks[i], seg, rid) && forall l :: i < l < n ==> !BlockServes(blocks[l], seg, rid)
  }

  ghost predicate NoneServing(blocks: seq<Block>, n: nat, seg: u32, rid: u32)
    requires n <= |blocks|
  {
    forall i :: 0 <= i < n ==> !BlockServes(blocks[i], seg, rid)
  }

  /** The answer at the block an entry leads to. */
  ghost predicate BaseBehind(blocks: seq<Block>, e: Entry, rid: u32, ans: nat) {
    exists x: nat {:trigger LiesAt(blocks, x, e.outputRef)} :: LiesAt(blocks, x, e.outputRef) &&
      ans == BaseAt(blocks[x], Translate(rid, e.inputBase, e.outputBase))
  }

  ghost function BaseAt(b: Block, sid: u32): nat {
    if b.IsSmmu() && b.data.SmmuData? && exists k :: 0 <= k < |b.maps| && Takes(b.maps[k], sid) then b.data.base else 0
  }

  ghost predicate TableAnswers(blocks: seq<Block>, seg: u32, rid: u32, ans: nat) {
    if NoneServing(blocks, |blocks|, seg, rid) then ans == NOT_FOUND
    else
      exists i: nat, j: nat ::
        && LastBlockServing(blocks, |blocks|, seg, rid, i) && FirstTaking(blocks[i].maps, rid, j)
        && BaseBehind(blocks, blocks[i].maps[j], rid, ans)
  }

  /** The query has an answer on every table whose entries lead to blocks. */
  lemma {:induction false} TableAnswerExists(blocks: seq<Block>, seg: u32, rid: u32) returns (ans: nat)
    requires AllLink(blocks)
    ensures TableAnswers(blocks, seg, rid, ans)
  {
    if NoneServing(blocks, |blocks|, seg, rid) {
      ans := NOT_FOUND;
    } else {
      var i := LastBlock(blocks, |blocks|, seg, rid);
      var j := FirstEntry(blocks[i].maps, rid, 0);
      var e := blocks[i].maps[j];
      assert IsBlock(blocks, e.outputRef);
      var x: nat :| LiesAt(blocks, x, e.outputRef);
      ans := BaseAt(blocks[x], Translate(rid, e.inputBase, e.outputBase));
      assert BaseBehind(blocks, e, rid, ans);
      assert LastBlockServing(blocks, |blocks|, seg, rid, i) && FirstTaking(blocks[i].maps, rid, j);
    }
  }

  lemma {:induction false} LastBlock(blocks: seq<Block>, n: nat, seg: u32, rid: u32) returns (i: nat)
    requires n <= |blocks| && !NoneServing(blocks, n, seg, rid)
    ensures LastBlockServing(blocks, n, seg, rid, i)
    decreases n
  {
    if BlockServes(blocks[n - 1], seg, rid) { i := n - 1; } else { i := LastBlock(blocks, n - 1, seg, rid); }
  }

  lemma {:induction false} FirstEntry(maps: seq<Entry>, rid: u32, from: nat) returns (j: nat)
    requires exists l :: from <= l < |maps| && Takes(maps[l], rid)
    requires forall l :: 0 <= l < from && l < |maps| ==> !Takes(maps[l], rid)
    ensures FirstTaking(maps, rid, j)
    decreases |maps| - from
  {
    if Takes(maps[from], rid) { j := from; } else { j := FirstEntry(maps, rid, from + 1); }
  }

  // ------------------------------------------------------------------ the table's answer in plain integers

  predicate EntryTakes(e: Entry, id: int) { Within(id, e.inputBase, e.idCount) }

  /** A root complex block of this segment, and its first entry that takes the identifier. */
  ghost predicate ServedBy(b: Block, seg: u32, id: int, j: nat) {
    && b.kind == RootComplex && b.data.RcData? && b.data.segment == seg
    && j < |b.maps| && EntryTakes(b.maps[j], id) && forall i :: 0 <= i < j ==> !EntryTakes(b.maps[i], id)
  }

  ghost predicate ServesPlain(b: Block, seg: u32, id: int) {
    && b.kind == RootComplex && b.data.RcData? && b.data.segment == seg
    && exists j :: 0 <= j < |b.maps| && EntryTakes(b.maps[j], id)
  }

  lemma {:induction false} TakesPlain(e: Entry, id: u32)
    ensures Takes(e, id) <==> EntryTakes(e, id)
  {
    InRangeExact(id, e.inputBase, e.idCount);
  }

  lemma {:induction false} BlockServesPlain(b: Block, seg: u32, id: u32)
    ensures BlockServes(b, seg, id) <==> ServesPlain(b, seg, id)
  {
    forall e ensures Takes(e, id) <==> EntryTakes(e, id) { TakesPlain(e, id); }
    hide Takes, EntryTakes;
  }

  ghost predicate SomeTakes(maps: seq<Entry>, id: int) { exists k :: 0 <= k < |maps| && EntryTakes(maps[k], id) }

  /** What the second level reads off the block behind an entry. */
  ghost function BaseBehindEntry(b: Block, e: Entry, rid: u32): nat {
    var out := e.outputBase + (rid - e.inputBase);
    var id := if out < 0x1_0000_0000 then out else out - 0x1_0000_0000;
    if (b.kind == Smmu || b.kind == SmmuV3) && b.data.SmmuData? && SomeTakes(b.maps, id) then b.data.base else 0
  }

  lemma {:induction false} BaseAtPlain(b: Block, e: Entry, rid: u32)
    requires EntryTakes(e, rid)
    ensures BaseAt(b, Translate(rid, e.inputBase, e.outputBase)) == BaseBehindEntry(b, e, rid)
  {
    TranslateExact(rid, e.inputBase, e.outputBase);
    var sid := Translate(rid, e.inputBase, e.outputBase);
    forall f ensures Takes(f, sid) <==> EntryTakes(f, sid) { TakesPlain(f, sid); }
    hide Takes, EntryTakes, Translate;
  }

  /** No root complex block of the segment takes the requester: the query answers 0xFFFFFFFF. */
  lemma {:induction false} NotFoundPlain(blocks: seq<Block>, seg: u32, rid: u32, ans: nat)
    requires forall i :: 0 <= i < |blocks| ==> !ServesPlain(blocks[i], seg, rid)
    ensures TableAnswers(blocks, seg, rid, ans) <==> ans == 0xFFFF_FFFF
  {
    forall i | 0 <= i < |blocks| ensures !BlockServes(blocks[i], seg, rid) { BlockServesPlain(blocks[i], seg, rid); }
    hide BlockServes, ServesPlain;
  }

  /**
   Otherwise the last such block decides, by its first entry that takes the requester and the block that this
   entry leads to.
   */
  lemma {:induction false} FoundPlain(blocks: seq<Block>, seg: u32, rid: u32, i: nat, j: nat, x: nat, ans: nat)
    requires i < |blocks| && ServedBy(blocks[i], seg, rid, j)
    requires forall l :: i < l < |blocks| ==> !ServesPlain(blocks[l], seg, rid)
    requires LiesAt(blocks, x, blocks[i].maps[j].outputRef)
    ensures TableAnswers(blocks, seg, rid, ans) <==> ans == BaseBehindEntry(blocks[x], blocks[i].maps[j], rid)
  {
    var e := blocks[i].maps[j];
    forall l | 0 <= l < |blocks| ensures BlockServes(blocks[l], seg, rid) <==> ServesPlain(blocks[l], seg, rid) {
      BlockServesPlain(blocks[l], seg, rid);
    }
    forall f ensures Takes(f, rid) <==> EntryTakes(f, rid) { TakesPlain(f, rid); }
    BaseAtPlain(blocks[x], e, rid);
    assert ServesPlain(blocks[i], seg, rid);
    hide BlockServes, ServesPlain, Takes, EntryTakes, BaseBehindEntry, BaseAt;
    assert LastBlockServing(blocks, |blocks|, seg, rid, i) && FirstTaking(blocks[i].maps, rid, j);
    OneRoute(blocks, seg, rid, i, j, ans);
    hide Translate;
    if y: nat :| LiesAt(blocks, y, e.outputRef) && ans == BaseAt(blocks[y], Translate(rid, e.inputBase, e.outputBase)) {
      OffInjective(blocks, x, y);
    }
  }

  /** The query follows the first entry of the last block that serves. */
  lemma {:induction false} OneRoute(blocks: seq<Block>, seg: u32, rid: u32, i: nat, j: nat, ans: nat)
    requires LastBlockServing(blocks, |blocks|, seg, rid, i) && FirstTaking(blocks[i].maps, rid, j)
    ensures TableAnswers(blocks, seg, rid, ans) <==> BaseBehind(blocks, blocks[i].maps[j], rid, ans)
  {
    hide BlockServes, BaseBehind, Takes;
    forall k: nat, l: nat | LastBlockServing(blocks, |blocks|, seg, rid, k) && FirstTaking(blocks[k].maps, rid, l)
      ensures k == i && l == j
    {
    }
  }

  // ------------------------------------------------------------------ the two agree

  /** What the blocks' owners say, block by block. */
  ghost function Contents(g: Iort, owner: seq<nat>, n: nat): (s: seq<Node>)
    requires n <= |owner|
    ensures |s| == n && forall i :: 0 <= i < n ==> s[i] == g.At(owner[i])
  {
    if n == 0 then [] else Contents(g, owner, n - 1) + [g.At(owner[n - 1])]
  }

  lemma {:induction false} TakesAsCovers(g: Iort, blocks: seq<Block>, owner: seq<nat>, i: nat)
    requires Image(g, blocks, owner, {}) && i < |blocks|
    ensures |blocks[i].maps| == |g.At(owner[i]).Maps()| && HeadOf(g.At(owner[i]), blocks[i])
    ensures forall j, id :: 0 <= j < |blocks[i].maps| ==>
            (Takes(blocks[i].maps[j], id) <==> Covers(g.At(owner[i]).Maps()[j], id))
  {
    assert HeaderFaithful(g, blocks, owner, i) && Faithful(g, blocks, owner, i);
    forall j | 0 <= j < |blocks[i].maps|
      ensures forall id :: Takes(blocks[i].maps[j], id) <==> Covers(g.At(owner[i]).Maps()[j], id)
    {
      assert EntryOf(g, blocks, owner, blocks[i].maps[j], g.At(owner[i]).Maps()[j]);
    }
  }

  lemma {:induction false} ServesSame(g: Iort, blocks: seq<Block>, owner: seq<nat>, i: nat, seg: u32, rid: u32)
    requires Image(g, blocks, owner, {}) && i < |blocks|
    ensures BlockServes(blocks[i], seg, rid) <==> Serves(g.At(owner[i]), seg, rid)
  {
    TakesAsCovers(g, blocks, owner, i);
    hide Image, Takes, Covers;
    var node, b := g.At(owner[i]), blocks[i];
    if Serves(node, seg, rid) {
      var j :| 0 <= j < |node.maps| && Covers(node.maps[j], rid);
      assert Takes(b.maps[j], rid);
    }
    if BlockServes(b, seg, rid) {
      var j :| 0 <= j < |b.maps| && Takes(b.maps[j], rid);
      assert Covers(node.Maps()[j], rid);
    }
  }

  /** A block answers what the node says that it was made from. */
  lemma {:induction false} BaseSame(g: Iort, blocks: seq<Block>, owner: seq<nat>, x: nat, m: Mapping, rid: u32)
    requires Image(g, blocks, owner, {}) && x < |blocks|
    ensures BaseAt(blocks[x], Translate(rid, m.inputBase, m.outputBase)) == BaseVia(g, owner[x], m, rid)
  {
    TakesAsCovers(g, blocks, owner, x);
    assert HeaderFaithful(g, blocks, owner, x);
    hide Image, Takes, Covers, Translate;
    var t, b, sid := g.At(owner[x]), blocks[x], Translate(rid, m.inputBase, m.outputBase);
    if t.IsSmmu() {
      if k :| 0 <= k < |t.Maps()| && Covers(t.Maps()[k], sid) { assert Takes(b.maps[k], sid); }
      if k :| 0 <= k < |b.maps| && Takes(b.maps[k], sid) { assert Covers(t.Maps()[k], sid); }
    }
  }

  /**
   The block that an entry leads to answers what the mapping's target would exactly if the node it was made
   from agrees with the target.
   */
  lemma {:induction false} EntryAnswersIff(g: Iort, blocks: seq<Block>, owner: seq<nat>, e: Entry, m: Mapping,
      rid: u32, x: nat)
    requires Image(g, blocks, owner, {}) && EntryOf(g, blocks, owner, e, m) && LiesAt(blocks, x, e.outputRef)
    ensures BaseAt(blocks[x], Translate(rid, e.inputBase, e.outputBase)) == SmmuBaseFor(g, m, rid) <==>
            Agrees(g, owner[x], m, rid)
  {
    var y: nat :| LiesAt(blocks, y, e.outputRef) && Stands(g, owner[y], m.outputRef);
    OffInjective(blocks, x, y);
    BaseSame(g, blocks, owner, x, m, rid);
    StandInAnswers(g, owner[x], m, rid);
  }

  /** The entry that the query follows leads to the block that the list of names gives. */
  lemma {:induction false} BehindIs(g: Iort, blocks: seq<Block>, a: Names, i: nat, j: nat, rid: u32, ans: nat)
    requires Image(g, blocks, a.owners, {}) && Wired(blocks, a.links) && i < |blocks| && j < |blocks[i].maps|
    ensures |a.links[i]| == |blocks[i].maps| == |g.At(a.owners[i]).Maps()| && a.links[i][j] < |blocks|
    ensures BaseBehind(blocks, blocks[i].maps[j], rid, ans) <==>
            ans == BaseVia(g, a.owners[a.links[i][j]], g.At(a.owners[i]).Maps()[j], rid)
  {
    assert WiredAt(blocks, a.links, i) && Faithful(g, blocks, a.owners, i);
    var e, m, x := blocks[i].maps[j], g.At(a.owners[i]).Maps()[j], a.links[i][j];
    assert LiesAt(blocks, x, e.outputRef) && EntryOf(g, blocks, a.owners, e, m);
    BaseSame(g, blocks, a.owners, x, m, rid);
    hide Image, Wired, WiredAt, BaseAt, BaseVia;
    if y: nat :| LiesAt(blocks, y, e.outputRef) && ans == BaseAt(blocks[y], Translate(rid, e.inputBase, e.outputBase)) {
      OffInjective(blocks, x, y);
    }
  }
}
