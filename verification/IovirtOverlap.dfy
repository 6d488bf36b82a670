/**
 The overlap pass: every mapping against the mappings that follow it, two flags per block. What
 the inner loop reads behind a block's own mappings is an arbitrary function `over` of the key
 mapping and the entry number.
 */
module IovirtOverlap {
  import opened Iort
  import opened IovirtLayout

  /** Entry read for key mapping (a, k) at entry j >= num_data_map of block a. */
  type Overrun = (nat, nat, nat) -> Entry

  // ------------------------------------------------------------------ the test on two ranges

  /** base + id_count - 1 in 32 bits; the count is exclusive here. */
  function LastId(e: Entry): u32 { Sub32(Add32(e.outputBase, e.idCount), 1) }

  predicate Meets(key: Entry, e: Entry) {
    var keyStart, keyEnd, start, end := key.outputBase, LastId(key), e.outputBase, LastId(e);
    || (keyStart >= start && keyStart <= end)
    || (keyEnd >= start && keyEnd <= end)
    || (keyStart < start && keyEnd > end)
  }

  /** A range of at least one identifier that stays within 32 bits. */
  predicate Proper(e: Entry) { e.idCount >= 1 && e.outputBase + e.idCount <= TWO32 }

  predicate InOutput(id: int, e: Entry) { e.outputBase <= id < e.outputBase + e.idCount }

  lemma {:induction false} LastIdProper(e: Entry)
    requires Proper(e)
    ensures LastId(e) == e.outputBase + e.idCount - 1
  {
    if e.outputBase + e.idCount == TWO32 { assert Add32(e.outputBase, e.idCount) == 0; }
  }

  /** The three-way test is intersection of the two ranges, and therefore symmetric. */
  lemma {:induction false} MeetsIsIntersection(x: Entry, y: Entry)
    requires Proper(x) && Proper(y)
    ensures Meets(x, y) <==> exists id :: InOutput(id, x) && InOutput(id, y)
    ensures Meets(x, y) <==> Meets(y, x)
  {
    LastIdProper(x);
    LastIdProper(y);
    if Meets(x, y) {
      var id := if x.outputBase >= y.outputBase then x.outputBase else y.outputBase;
      assert InOutput(id, x) && InOutput(id, y);
    }
  }

  /** The range of the specification, DEN0049: the count is the number of identifiers minus one. */
  predicate InSpecOutput(id: int, e: Entry) { e.outputBase <= id <= e.outputBase + e.idCount }

  ghost predicate SpecMeets(x: Entry, y: Entry) { exists id :: InSpecOutput(id, x) && InSpecOutput(id, y) }

  /** A range of the specification that stays within 32 bits, a single identifier included. */
  predicate WithinSpec(e: Entry) { e.outputBase + e.idCount <= TWO32 }

  /** The single identifier 0: its last identifier wraps, so that it is taken for the whole space. */
  predicate ZeroOnly(e: Entry) { e.outputBase == 0 && e.idCount == 0 }

  /** The last identifier of x is the first of y. */
  predicate Touches(x: Entry, y: Entry) { y.outputBase == x.outputBase + x.idCount }

  lemma {:induction false} SpecMeetsExact(x: Entry, y: Entry)
    ensures SpecMeets(x, y) <==> x.outputBase <= y.outputBase + y.idCount && y.outputBase <= x.outputBase + x.idCount
  {
    var id := if x.outputBase >= y.outputBase then x.outputBase else y.outputBase;
    assert InSpecOutput(id, x) && InSpecOutput(id, y) <==>
      x.outputBase <= y.outputBase + y.idCount && y.outputBase <= x.outputBase + x.idCount;
  }

  /** The last identifier as computed. */
  lemma {:induction false} LastIdExact(e: Entry)
    requires WithinSpec(e)
    ensures LastId(e) == if ZeroOnly(e) then TWO32 - 1 else e.outputBase + e.idCount - 1
  {
    if e.outputBase + e.idCount == TWO32 { assert Add32(e.outputBase, e.idCount) == 0; }
  }

  /**
   Against the specification's ranges, for all of them. Missed are, unless identifier 0 alone is
   involved, the ranges that the other one touches at an end: a single identifier, in the place of the
   other, at either end of the key; otherwise, if the key is not a single identifier, one at the last
   identifier of the other. Reported wrongly is whatever is compared with identifier 0 alone.
   */
  lemma {:induction false} MeetsAgainstSpec(key: Entry, e: Entry)
    requires WithinSpec(key) && WithinSpec(e)
    ensures SpecMeets(key, e) && !Meets(key, e) <==>
            && !ZeroOnly(key) && !ZeroOnly(e)
            && (e.idCount == 0 ==> e.outputBase == key.outputBase || Touches(key, e))
            && (e.idCount > 0 ==> key.idCount > 0 && (Touches(key, e) || Touches(e, key)))
    ensures Meets(key, e) && !SpecMeets(key, e) <==> (ZeroOnly(key) || ZeroOnly(e)) && !SpecMeets(key, e)
  {
    LastIdExact(key);
    LastIdExact(e);
    SpecMeetsExact(key, e);
  }

  /**
   The test depends on which of the two is the key exactly for a single identifier, not 0, at an end of a
   longer range.
   */
  lemma {:induction false} MeetsAsymmetric(x: Entry, y: Entry)
    requires WithinSpec(x) && WithinSpec(y) && x.idCount <= y.idCount
    ensures Meets(x, y) != Meets(y, x) <==>
            && x.idCount == 0 < y.idCount && x.outputBase > 0
            && (x.outputBase == y.outputBase || x.outputBase == y.outputBase + y.idCount)
  {
    LastIdExact(x);
    LastIdExact(y);
  }

  /** Two single-identifier mappings, count 0 in the specification, are never reported, not even when they coincide. */
  lemma {:induction false} SingleIdsMissed(x: Entry, y: Entry)
    requires x.idCount == 0 && y.idCount == 0 && x.outputBase == y.outputBase > 0
    ensures !Meets(x, y) && InSpecOutput(x.outputBase, x) && InSpecOutput(x.outputBase, y)
  {
    assert LastId(x) == x.outputBase - 1;
  }

  // ------------------------------------------------------------------ which pairs are compared

  /** Mapping k of block a against entry j met while walking block b. */
  datatype Pair = Pair(a: nat, k: nat, b: nat, j: nat)

  predicate HasMaps(b: Block) { b.kind != ItsGroup }

  /** `ref` is the offset of a block. */
  ghost predicate IsBlock(blocks: seq<Block>, ref: nat) {
    exists x: nat :: LiesAt(blocks, x, ref)
  }

  /** All entries written so far lead to blocks. */
  ghost predicate AllLink(blocks: seq<Block>) {
    forall i, k :: 0 <= i < |blocks| && 0 <= k < |blocks[i].maps| ==> IsBlock(blocks, blocks[i].maps[k].outputRef)
  }

  /** Block a has all its entries, and they lead to blocks. */
  ghost predicate Complete(blocks: seq<Block>, a: nat)
    requires a < |blocks|
  {
    && |blocks[a].maps| == blocks[a].numMaps
    && forall k :: 0 <= k < |blocks[a].maps| ==> IsBlock(blocks, blocks[a].maps[k].outputRef)
  }

  ghost predicate Linkable(blocks: seq<Block>) {
    forall a {:trigger Complete(blocks, a)} :: 0 <= a < |blocks| && HasMaps(blocks[a]) ==> Complete(blocks, a)
  }

  ghost predicate AllFlagged(blocks: seq<Block>) {
    forall a :: 0 <= a < |blocks| ==> blocks[a].flags.Flags?
  }

  /**
   The pass compares key (a, k) with num_data_map - 1 entries from k + 1 on in its own block, and with all of
   every later block.
   */
  predicate Compared(blocks: seq<Block>, p: Pair) {
    && p.a < |blocks| && HasMaps(blocks[p.a]) && p.k < |blocks[p.a].maps|
    && p.b < |blocks| && HasMaps(blocks[p.b])
    && (if p.b == p.a then p.k < p.j < p.k + |blocks[p.a].maps| else p.a < p.b && p.j < |blocks[p.b].maps|)
  }

  predicate Overruns(blocks: seq<Block>, p: Pair) {
    Compared(blocks, p) && p.j >= |blocks[p.b].maps|
  }

  function Key(blocks: seq<Block>, p: Pair): Entry
    requires Compared(blocks, p)
  {
    blocks[p.a].maps[p.k]
  }

  function Other(blocks: seq<Block>, over: Overrun, p: Pair): Entry
    requires Compared(blocks, p)
  {
    if p.j < |blocks[p.b].maps| then blocks[p.b].maps[p.j] else over(p.a, p.k, p.j)
  }

  predicate Hit(blocks: seq<Block>, over: Overrun, p: Pair) {
    Compared(blocks, p) &&
    Other(blocks, over, p).outputRef == Key(blocks, p).outputRef && Meets(Key(blocks, p), Other(blocks, over, p))
  }

  /** The reference leads to an ITS group: identifiers are device IDs, otherwise stream IDs. */
  ghost predicate LeadsToIts(blocks: seq<Block>, ref: nat) {
    exists x: nat {:trigger LiesAt(blocks, x, ref)} :: LiesAt(blocks, x, ref) && blocks[x].kind == ItsGroup
  }

  ghost predicate Marks(blocks: seq<Block>, over: Overrun, p: Pair, x: nat, its: bool) {
    Hit(blocks, over, p) && (x == p.a || x == p.b) && LeadsToIts(blocks, Key(blocks, p).outputRef) == its
  }

  /** The whole pass marks block x. */
  ghost predicate Marked(blocks: seq<Block>, over: Overrun, x: nat, its: bool) {
    exists p :: Marks(blocks, over, p, x, its)
  }

  /** The table after the pass. */
  ghost function Flagged(blocks: seq<Block>, over: Overrun): (s: seq<Block>)
    requires AllFlagged(blocks)
    ensures |s| == |blocks| && forall x :: 0 <= x < |blocks| ==>
            s[x] == blocks[x].(flags := s[x].flags) && s[x].flags.Flags?
  {
    seq(|blocks|, x requires 0 <= x < |blocks| =>
      blocks[x].(flags := Flags(blocks[x].flags.devidOverlap || Marked(blocks, over, x, true),
                                blocks[x].flags.stridOverlap || Marked(blocks, over, x, false),
                                blocks[x].flags.ctxIntClash)))
  }

  // ------------------------------------------------------------------ what the flags mean

  /** Two different mappings, the first earlier in the table, lead to the same block with ranges that meet. */
  ghost predicate Overlaps(blocks: seq<Block>, p: Pair, its: bool) {
    && Compared(blocks, p) && p.j < |blocks[p.b].maps|
    && blocks[p.b].maps[p.j].outputRef == Key(blocks, p).outputRef
    && Meets(Key(blocks, p), blocks[p.b].maps[p.j])
    && LeadsToIts(blocks, Key(blocks, p).outputRef) == its
  }

  ghost predicate TrueOverlap(blocks: seq<Block>, x: nat, its: bool) {
    exists p :: Overlaps(blocks, p, its) && (x == p.a || x == p.b)
  }

  /** A comparison behind the block's own mappings succeeds by what happens to lie there. */
  ghost predicate StrayHit(blocks: seq<Block>, over: Overrun, x: nat, its: bool) {
    exists p :: Overruns(blocks, p) && p.a == x && Marks(blocks, over, p, x, its)
  }

  /**
   Whatever lies behind the blocks: a flag is set exactly for an overlap of two entries of the table or a stray
   hit. Which mappings of the IORT have entries, and which of those name one block, is another matter.
   */
  lemma {:induction false} MarkedExactly(blocks: seq<Block>, over: Overrun, x: nat, its: bool)
    ensures Marked(blocks, over, x, its) <==> TrueOverlap(blocks, x, its) || StrayHit(blocks, over, x, its)
  {
    if Marked(blocks, over, x, its) {
      var p :| Marks(blocks, over, p, x, its);
      if p.j < |blocks[p.b].maps| {
        assert Overlaps(blocks, p, its);
      } else {
        assert Overruns(blocks, p);
      }
    }
    if TrueOverlap(blocks, x, its) {
      var p :| Overlaps(blocks, p, its) && (x == p.a || x == p.b);
      assert Marks(blocks, over, p, x, its);
    }
  }

  /** Each unordered pair of different mappings is compared once, the earlier one as the key. */
  lemma {:induction false} ComparedOnce(blocks: seq<Block>, a: nat, k: nat, b: nat, j: nat)
    requires a < |blocks| && b < |blocks| && HasMaps(blocks[a]) && HasMaps(blocks[b])
    requires k < |blocks[a].maps| && j < |blocks[b].maps| && (a != b || k != j)
    ensures Compared(blocks, Pair(a, k, b, j)) <==> !Compared(blocks, Pair(b, j, a, k))
  {}

  /** From two mappings on, memory can make the pass flag a block for any mapping but its first. */
  lemma {:induction false} StrayPossible(blocks: seq<Block>, x: nat, k: nat, its: bool) returns (over: Overrun)
    requires x < |blocks| && HasMaps(blocks[x]) && 1 <= k < |blocks[x].maps|
    requires LeadsToIts(blocks, blocks[x].maps[k].outputRef) == its
    ensures Marked(blocks, over, x, its)
  {
    var m := blocks[x].maps[k];
    var e := Entry(0, 1, m.outputBase, m.outputRef);
    over := (a, b, c) => e;
    assert LastId(e) == m.outputBase;
    assert Marks(blocks, over, Pair(x, k, x, |blocks[x].maps|), x, its);
  }

  /**
   The flags of block x are exact whatever memory holds exactly when every mapping but its first
   leads to a kind of block for which x is truly overlapping anyway. Blocks with one mapping always qualify.
   */
  lemma {:induction false} ExactIff(blocks: seq<Block>, x: nat)
    requires x < |blocks| && HasMaps(blocks[x])
    ensures (forall over: Overrun, its :: Marked(blocks, over, x, its) <==> TrueOverlap(blocks, x, its)) <==>
            (forall k :: 1 <= k < |blocks[x].maps| ==>
              TrueOverlap(blocks, x, LeadsToIts(blocks, blocks[x].maps[k].outputRef)))
  {
    if forall over: Overrun, its :: Marked(blocks, over, x, its) <==> TrueOverlap(blocks, x, its) {
      forall k | 1 <= k < |blocks[x].maps| ensures TrueOverlap(blocks, x,
        LeadsToIts(blocks, blocks[x].maps[k].outputRef)) {
        var over := StrayPossible(blocks, x, k, LeadsToIts(blocks, blocks[x].maps[k].outputRef));
        assert Marked(blocks, over, x, LeadsToIts(blocks, blocks[x].maps[k].outputRef));
      }
    }
    if forall k :: 1 <= k < |blocks[x].maps| ==> TrueOverlap(blocks, x,
      LeadsToIts(blocks, blocks[x].maps[k].outputRef)) {
      forall over: Overrun, its ensures Marked(blocks, over, x, its) <==> TrueOverlap(blocks, x, its) {
        MarkedExactly(blocks, over, x, its);
        if p :| Overruns(blocks, p) && p.a == x && Marks(blocks, over, p, x, its) { assert p.k >= 1; }
      }
    }
  }
}
