/** What runs over the finished table in place: the overlap pass, with its nested pointer loops. */
module IovirtPasses {
  import opened IovirtLayout
  import opened IovirtArena
  import opened IovirtTable
  import opened IovirtOverlap

  // ------------------------------------------------------------------ the pass part of the way through

  /** Pairs in the order the loops visit them. */
  predicate Before(p: Pair, q: Pair) {
    p.a < q.a || (p.a == q.a && (p.k < q.k || (p.k == q.k && (p.b < q.b || (p.b == q.b && p.j < q.j)))))
  }

  ghost predicate MarkedBefore(blocks: seq<Block>, over: Overrun, q: Pair, x: nat, its: bool) {
    exists p :: Before(p, q) && Marks(blocks, over, p, x, its)
  }

  /** The blocks after all comparisons before q. */
  ghost function Partial(blocks: seq<Block>, over: Overrun, q: Pair): (s: seq<Block>)
    requires AllFlagged(blocks)
    ensures |s| == |blocks|
    ensures forall x :: 0 <= x < |blocks| ==> s[x] == blocks[x].(flags := FlagsBefore(blocks, over, q, x))
  {
    seq(|blocks|, x requires 0 <= x < |blocks| => blocks[x].(flags := FlagsBefore(blocks, over, q, x)))
  }

  ghost function FlagsBefore(blocks: seq<Block>, over: Overrun, q: Pair, x: nat): Flags
    requires AllFlagged(blocks) && x < |blocks|
  {
    Flags(blocks[x].flags.devidOverlap || MarkedBefore(blocks, over, q, x, true),
          blocks[x].flags.stridOverlap || MarkedBefore(blocks, over, q, x, false),
          blocks[x].flags.ctxIntClash)
  }

  function SetOne(f: Flags, its: bool): (r: Flags)
    requires f.Flags?
    ensures r.Flags?
  {
    if its then f.(devidOverlap := true) else f.(stridOverlap := true)
  }

  /** Setting one overlap flag of block x. */
  function WithMark(blocks: seq<Block>, x: nat, its: bool): (s: seq<Block>)
    requires x < |blocks| && blocks[x].flags.Flags?
    ensures |s| == |blocks| && s[x].flags.Flags? && forall i :: 0 <= i < |blocks| && i != x ==> s[i] == blocks[i]
  {
    blocks[x := blocks[x].(flags := SetOne(blocks[x].flags, its))]
  }

  lemma {:induction false} PartialStart(blocks: seq<Block>, over: Overrun)
    requires AllFlagged(blocks)
    ensures Partial(blocks, over, Pair(0, 0, 0, 0)) == blocks
  {
    var q := Pair(0, 0, 0, 0);
    forall x | 0 <= x < |blocks| ensures Partial(blocks, over, q)[x] == blocks[x] {
      assert !MarkedBefore(blocks, over, q, x, true) && !MarkedBefore(blocks, over, q, x, false);
    }
  }

  lemma {:induction false} PartialEnd(blocks: seq<Block>, over: Overrun, q: Pair)
    requires AllFlagged(blocks) && q.a >= |blocks|
    ensures Partial(blocks, over, q) == Flagged(blocks, over)
  {
    forall x, its | 0 <= x < |blocks| ensures MarkedBefore(blocks, over, q, x, its) <==> Marked(blocks, over, x, its) {
      if Marked(blocks, over, x, its) {
        var p :| Marks(blocks, over, p, x, its);
        assert Before(p, q);
      }
    }
  }

  /** Moving on past positions where nothing is compared. */
  lemma {:induction false} PartialSkip(blocks: seq<Block>, over: Overrun, q: Pair, r: Pair)
    requires AllFlagged(blocks)
    requires forall p :: Compared(blocks, p) ==> (Before(p, q) <==> Before(p, r))
    ensures Partial(blocks, over, q) == Partial(blocks, over, r)
  {
    forall x, its | 0 <= x < |blocks| ensures MarkedBefore(blocks, over, q, x, its) <==>
      MarkedBefore(blocks, over, r, x, its) {
      if MarkedBefore(blocks, over, q, x, its) {
        var p :| Before(p, q) && Marks(blocks, over, p, x, its);
        assert Before(p, r);
      }
      if MarkedBefore(blocks, over, r, x, its) {
        var p :| Before(p, r) && Marks(blocks, over, p, x, its);
        assert Before(p, q);
      }
    }
    forall x | 0 <= x < |blocks| ensures Partial(blocks, over, q)[x] == Partial(blocks, over, r)[x] {
      assert FlagsBefore(blocks, over, q, x) == FlagsBefore(blocks, over, r, x);
    }
  }

  lemma {:induction false} MarkedStep(blocks: seq<Block>, over: Overrun, q: Pair, x: nat, its: bool)
    ensures MarkedBefore(blocks, over, q.(j := q.j + 1), x, its) <==>
            MarkedBefore(blocks, over, q, x, its) || Marks(blocks, over, q, x, its)
  {
    var r := q.(j := q.j + 1);
    if MarkedBefore(blocks, over, r, x, its) {
      var p :| Before(p, r) && Marks(blocks, over, p, x, its);
      assert Before(p, q) || p == q;
    }
    if MarkedBefore(blocks, over, q, x, its) {
      var p :| Before(p, q) && Marks(blocks, over, p, x, its);
      assert Before(p, r);
    }
    if Marks(blocks, over, q, x, its) { assert Before(q, r); }
  }

  lemma {:induction false} FlagsStep(blocks: seq<Block>, over: Overrun, q: Pair, x: nat)
    requires AllFlagged(blocks) && Compared(blocks, q) && x < |blocks|
    ensures var f := FlagsBefore(blocks, over, q, x);
            FlagsBefore(blocks, over, q.(j := q.j + 1), x) ==
            if Hit(blocks, over, q) && (x == q.a || x == q.b)
              then SetOne(f, LeadsToIts(blocks, Key(blocks, q).outputRef)) else f
  {
    hide Compared;
    hide LeadsToIts;
    MarkedStep(blocks, over, q, x, true);
    MarkedStep(blocks, over, q, x, false);
  }

  /** One comparison: nothing, or a mark on both blocks. */
  lemma {:induction false} PartialStep(blocks: seq<Block>, over: Overrun, q: Pair)
    requires AllFlagged(blocks) && Compared(blocks, q)
    ensures var s, t := Partial(blocks, over, q), Partial(blocks, over, q.(j := q.j + 1));
            if Hit(blocks, over, q) then
              var its := LeadsToIts(blocks, Key(blocks, q).outputRef);
              t == WithMark(WithMark(s, q.a, its), q.b, its)
            else t == s
  {
    hide FlagsBefore;
    hide Hit;
    hide LeadsToIts;
    var s, t := Partial(blocks, over, q), Partial(blocks, over, q.(j := q.j + 1));
    var its := LeadsToIts(blocks, Key(blocks, q).outputRef);
    PartialFlagged(blocks, over, q);
    forall x | 0 <= x < |blocks|
      ensures t[x] == if Hit(blocks, over, q) then WithMark(WithMark(s, q.a, its), q.b, its)[x] else s[x]
    {
      FlagsStep(blocks, over, q, x);
    }
  }

  lemma {:induction false} PartialFlagged(blocks: seq<Block>, over: Overrun, q: Pair)
    requires AllFlagged(blocks)
    ensures AllFlagged(Partial(blocks, over, q))
  {}

  // ------------------------------------------------------------------ the loops

  method SetFlag(t: Table, block: nat, its: bool, ghost blocks: seq<Block>, ghost x: nat)
    requires Tiled(t.cells[..], blocks) && x < |blocks| && block == Off(blocks, x) && blocks[x].flags.Flags?
    modifies t.cells
    ensures Tiled(t.cells[..], WithMark(blocks, x, its))
  {
    ghost var c := t.cells[..];
    assert Lays(c, Off(blocks, x), blocks[x]);
    var f := t.cells[block + 3].f;
    t.cells[block + 3] := FlagBits(SetOne(f, its));
    ghost var b := WithMark(blocks, x, its)[x];
    assert Lays(t.cells[..], Off(blocks, x), b) by {
      forall j | 0 <= j < |b.maps| ensures EntryAt(t.cells[..], block + HDR + 4 * j, b.maps[j]) {
        assert EntryAt(c, block + HDR + 4 * j, blocks[x].maps[j]);
      }
    }
    TiledUpdate(c, t.cells[..], blocks, x, b);
  }

  method ReadEntry(t: Table, at: nat, ghost e: Entry) returns (r: Entry)
    requires EntryAt(t.cells[..], at, e)
    ensures r == e
  {
    r := Entry(t.cells[at].w, t.cells[at + 1].w, t.cells[at + 2].w, t.cells[at + 3].w);
  }

  /** The arena holds the blocks with the flags of the pass part of the way through. */
  ghost predicate Running(t: Table, blocks: seq<Block>, over: Overrun, q: Pair)
    reads t, t.cells
  {
    AllFlagged(blocks) && Linkable(blocks) && t.numBlocks == |blocks| && Tiled(t.cells[..], Partial(blocks, over, q))
  }

  lemma {:induction false} BlockAt(t: Table, blocks: seq<Block>, over: Overrun, q: Pair, x: nat)
    requires Running(t, blocks, over, q) && x < |blocks|
    ensures Off(Partial(blocks, over, q), x) == Off(blocks, x) && Off(blocks, x) + HDR <= t.cells.Length
    ensures t.cells[Off(blocks, x)] == Word(Code(blocks[x].kind)) &&
            t.cells[Off(blocks, x) + 1] == Word(blocks[x].numMaps)
    ensures HasMaps(blocks[x]) ==> |blocks[x].maps| == blocks[x].numMaps
    ensures forall k {:trigger blocks[x].maps[k]} :: 0 <= k < |blocks[x].maps| ==>
            EntryAt(t.cells[..], Off(blocks, x) + HDR + 4 * k, blocks[x].maps[k])
  {
    var s := Partial(blocks, over, q);
    OffSame(blocks, s, x);
    assert Lays(t.cells[..], Off(s, x), s[x]);
    assert HasMaps(blocks[x]) ==> Complete(blocks, x);
    forall k | 0 <= k < |blocks[x].maps| ensures EntryAt(t.cells[..], Off(blocks, x) + HDR + 4 * k, blocks[x].maps[k]) {
      assert s[x].maps[k] == blocks[x].maps[k];
    }
  }

  /** The type word at the referenced block tells ITS groups from the rest. */
  lemma {:induction false} TypeAt(t: Table, blocks: seq<Block>, over: Overrun, q: Pair, ref: nat, x: nat)
    requires Running(t, blocks, over, q) && x < |blocks| && Off(blocks, x) == ref
    ensures ref < t.cells.Length && (t.cells[ref] == Word(Code(ItsGroup)) <==> LeadsToIts(blocks, ref))
  {
    BlockAt(t, blocks, over, q, x);
    if LeadsToIts(blocks, ref) {
      var y: nat :| LiesAt(blocks, y, ref) && blocks[y].kind == ItsGroup;
      OffInjective(blocks, x, y);
    }
    if t.cells[ref] == Word(Code(ItsGroup)) {
      CodeInjective(blocks[x].kind, ItsGroup);
      assert LiesAt(blocks, x, ref);
    }
  }

  method ComparePair(t: Table, keyBlock: nat, key: Entry, block: nat, e: Entry, ghost blocks: seq<Block>,
      ghost over: Overrun, ghost q: Pair)
    requires Running(t, blocks, over, q) && Compared(blocks, q)
    requires keyBlock == Off(blocks, q.a) && block == Off(blocks, q.b) && key == Key(blocks, q) &&
             e == Other(blocks, over, q)
    modifies t.cells
    ensures Running(t, blocks, over, q.(j := q.j + 1))
  {
    hide Running;
    hide Compared;
    PairFacts(t, blocks, over, q);
    if e.outputRef == key.outputRef && Meets(key, e) {
      var its := t.cells[e.outputRef] == Word(Code(ItsGroup));
      MarkBoth(t, keyBlock, block, its, blocks, over, q);
    }
  }

  /**
   What a comparison needs to know: where a hit leads, and that no hit leaves the state as the next position
   wants it.
   */
  lemma {:induction false} PairFacts(t: Table, blocks: seq<Block>, over: Overrun, q: Pair)
    requires Running(t, blocks, over, q) && Compared(blocks, q)
    ensures var ref := Key(blocks, q).outputRef;
            ref < t.cells.Length && (t.cells[ref] == Word(Code(ItsGroup)) <==> LeadsToIts(blocks, ref))
    ensures !Hit(blocks, over, q) ==> Running(t, blocks, over, q.(j := q.j + 1))
  {
    assert Complete(blocks, q.a) && IsBlock(blocks, blocks[q.a].maps[q.k].outputRef);
    var x: nat :| LiesAt(blocks, x, blocks[q.a].maps[q.k].outputRef);
    TypeAt(t, blocks, over, q, Key(blocks, q).outputRef, x);
    PartialStep(blocks, over, q);
  }

  method MarkBoth(t: Table, keyBlock: nat, block: nat, its: bool, ghost blocks: seq<Block>, ghost over: Overrun,
      ghost q: Pair)
    requires Running(t, blocks, over, q) && Hit(blocks, over, q)
    requires keyBlock == Off(blocks, q.a) && block == Off(blocks, q.b) &&
             its == LeadsToIts(blocks, Key(blocks, q).outputRef)
    modifies t.cells
    ensures Running(t, blocks, over, q.(j := q.j + 1))
  {
    ghost var s := Partial(blocks, over, q);
    PartialStep(blocks, over, q);
    PartialFlagged(blocks, over, q);
    OffSame(blocks, s, q.a);
    OffSame(blocks, s, q.b);
    OffSame(s, WithMark(s, q.a, its), q.b);
    hide Partial;
    hide Hit;
    hide Tiled;
    SetFlag(t, keyBlock, its, s, q.a);
    SetFlag(t, block, its, WithMark(s, q.a, its), q.b);
  }

  lemma {:induction false} SkipTo(t: Table, blocks: seq<Block>, over: Overrun, q: Pair, r: Pair)
    requires Running(t, blocks, over, q) && NothingBetween(blocks, q, r)
    ensures Running(t, blocks, over, r)
  {
    PartialSkip(blocks, over, q, r);
  }

  /** Nothing is compared between the two positions. */
  ghost predicate NothingBetween(blocks: seq<Block>, q: Pair, r: Pair) {
    forall p :: Compared(blocks, p) ==> (Before(p, q) <==> Before(p, r))
  }

  lemma {:induction false} NoneBeforeOwnBlock(blocks: seq<Block>, a: nat, k: nat)
    ensures NothingBetween(blocks, Pair(a, k, 0, 0), Pair(a, k, a, 0))
  {}

  lemma {:induction false} NoneUpToNext(blocks: seq<Block>, a: nat, k: nat)
    ensures NothingBetween(blocks, Pair(a, k, a, 0), Pair(a, k, a, k + 1))
  {}

  lemma {:induction false} NoneAfterEntries(blocks: seq<Block>, a: nat, k: nat, b: nat, j: nat)
    requires b < |blocks| && j >= |blocks[b].maps| + if a == b then k else 0
    ensures NothingBetween(blocks, Pair(a, k, b, j), Pair(a, k, b + 1, 0))
  {}

  lemma {:induction false} NoneInIts(blocks: seq<Block>, a: nat, k: nat, b: nat)
    requires b < |blocks| && !HasMaps(blocks[b])
    ensures NothingBetween(blocks, Pair(a, k, b, 0), Pair(a, k, b + 1, 0))
  {}

  lemma {:induction false} NoneAfterBlocks(blocks: seq<Block>, a: nat, k: nat, b: nat)
    requires b >= |blocks|
    ensures NothingBetween(blocks, Pair(a, k, b, 0), Pair(a, k + 1, 0, 0))
  {}

  lemma {:induction false} NoneAfterKeys(blocks: seq<Block>, a: nat, k: nat)
    requires a < |blocks| && (HasMaps(blocks[a]) ==> k >= |blocks[a].maps|)
    ensures NothingBetween(blocks, Pair(a, k, 0, 0), Pair(a + 1, 0, 0, 0))
  {}

  /** The entry the walk points at; behind the block's own mappings that is whatever memory holds there. */
  method ReadOther(t: Table, a: nat, k: nat, block: nat, numMaps: nat, j: nat, ghost blocks: seq<Block>, over: Overrun,
      ghost q: Pair)
    returns (e: Entry)
    requires Running(t, blocks, over, q) && Compared(blocks, q) && q.a == a && q.k == k && q.j == j
    requires block == Off(blocks, q.b) && numMaps == |blocks[q.b].maps|
    ensures e == Other(blocks, over, q)
  {
    if j < numMaps {
      BlockAt(t, blocks, over, q, q.b);
      assert EntryAt(t.cells[..], block + HDR + 4 * j, blocks[q.b].maps[j]);
      e := ReadEntry(t, block + HDR + 4 * j, blocks[q.b].maps[j]);
    } else {
      e := over(a, k, j);
    }
  }

  /** One block against the key: its own block from the mapping after the key, any other from the start. */
  method CompareBlock(t: Table, keyBlock: nat, key: Entry, a: nat, k: nat, block: nat, ghost b: nat,
      ghost blocks: seq<Block>, over: Overrun)
    requires Running(t, blocks, over, Pair(a, k, b, 0))
    requires a <= b < |blocks| && HasMaps(blocks[a]) && HasMaps(blocks[b]) && k < |blocks[a].maps| &&
             key == blocks[a].maps[k]
    requires keyBlock == Off(blocks, a) && block == Off(blocks, b)
    modifies t.cells
    ensures Running(t, blocks, over, Pair(a, k, b + 1, 0))
  {
    hide Running;
    hide NothingBetween;
    hide Meets;
    hide EntryAt;
    ghost var here := Pair(a, k, b, 0);
    BlockAt(t, blocks, over, here, b);
    var numMaps := t.cells[block + 1].w;
    assert numMaps == |blocks[b].maps|;
    var nMaps, j := numMaps, 0;
    assert block == keyBlock <==> a == b by { if block == keyBlock { OffInjective(blocks, a, b); } }
    if block == keyBlock {
      j := k + 1;
      nMaps := nMaps - 1;
      NoneUpToNext(blocks, a, k);
      SkipTo(t, blocks, over, here, here.(j := k + 1));
    }
    while nMaps > 0
      invariant nMaps + j == if a == b then k + numMaps else numMaps
      invariant a == b ==> j > k
      invariant Running(t, blocks, over, Pair(a, k, b, j))
      decreases nMaps
    {
      ghost var q := Pair(a, k, b, j);
      assert Compared(blocks, q);
      var e := ReadOther(t, a, k, block, numMaps, j, blocks, over, q);
      ComparePair(t, keyBlock, key, block, e, blocks, over, q);
      j := j + 1;
      nMaps := nMaps - 1;
    }
    NoneAfterEntries(blocks, a, k, b, j);
    SkipTo(t, blocks, over, Pair(a, k, b, j), Pair(a, k, b + 1, 0));
  }

  /** One block of the inner walk: skipped if it is an ITS group, compared otherwise; then on to the next one. */
  method CompareOrSkip(t: Table, keyBlock: nat, key: Entry, a: nat, k: nat, block: nat,
                       ghost b: nat, ghost blocks: seq<Block>, over: Overrun)
    returns (next: nat)
    requires Running(t, blocks, over, Pair(a, k, b, 0))
    requires a <= b < |blocks| && HasMaps(blocks[a]) && k < |blocks[a].maps| && key == blocks[a].maps[k]
    requires keyBlock == Off(blocks, a) && block == Off(blocks, b)
    modifies t.cells
    ensures Running(t, blocks, over, Pair(a, k, b + 1, 0)) && next == Off(blocks, b + 1)
  {
    hide Running, NothingBetween, Meets, EntryAt, LiesAt;
    ghost var here := Pair(a, k, b, 0);
    BlockAt(t, blocks, over, here, b);
    if t.cells[block].w == Code(ItsGroup) {
      CodeInjective(blocks[b].kind, ItsGroup);
      NoneInIts(blocks, a, k, b);
      SkipTo(t, blocks, over, here, Pair(a, k, b + 1, 0));
    } else {
      CompareBlock(t, keyBlock, key, a, k, block, b, blocks, over);
    }
    BlockAt(t, blocks, over, Pair(a, k, b + 1, 0), b);
    next := block + HDR + 4 * t.cells[block + 1].w;
  }

  /** One key mapping against its own block and all later ones. */
  method CompareKey(t: Table, keyBlock: nat, key: Entry, a: nat, k: nat, nKeyBlocks: nat, ghost blocks: seq<Block>,
      over: Overrun)
    requires Running(t, blocks, over, Pair(a, k, 0, 0)) && a < |blocks| && nKeyBlocks == |blocks| - a
    requires HasMaps(blocks[a]) && k < |blocks[a].maps| && key == blocks[a].maps[k]
    requires keyBlock == Off(blocks, a)
    modifies t.cells
    ensures Running(t, blocks, over, Pair(a, k + 1, 0, 0))
  {
    hide Running, NothingBetween, Meets, EntryAt, LiesAt, HasMaps;
    var block, nBlocks := keyBlock, nKeyBlocks;
    ghost var b := a;
    NoneBeforeOwnBlock(blocks, a, k);
    SkipTo(t, blocks, over, Pair(a, k, 0, 0), Pair(a, k, a, 0));
    while nBlocks > 0
      invariant a <= b <= |blocks| && nBlocks == |blocks| - b && block == Off(blocks, b)
      invariant Running(t, blocks, over, Pair(a, k, b, 0))
      decreases nBlocks
    {
      block := CompareOrSkip(t, keyBlock, key, a, k, block, b, blocks, over);
      nBlocks := nBlocks - 1;
      b := b + 1;
    }
    NoneAfterBlocks(blocks, a, k, b);
    SkipTo(t, blocks, over, Pair(a, k, b, 0), Pair(a, k + 1, 0, 0));
  }

  lemma {:induction false} Finished(t: Table, blocks: seq<Block>, over: Overrun, q: Pair)
    requires Running(t, blocks, over, q) && q.a >= |blocks|
    ensures AllFlagged(blocks) && Tiled(t.cells[..], Flagged(blocks, over))
  {
    PartialEnd(blocks, over, q);
  }

  /** All mappings of one block as keys. */
  method CompareKeys(t: Table, keyBlock: nat, a: nat, nKeyBlocks: nat, ghost blocks: seq<Block>, over: Overrun)
    requires Running(t, blocks, over, Pair(a, 0, 0, 0))
    requires a < |blocks| && nKeyBlocks == |blocks| - a && HasMaps(blocks[a]) && keyBlock == Off(blocks, a)
    modifies t.cells
    ensures Running(t, blocks, over, Pair(a + 1, 0, 0, 0))
  {
    hide Running;
    hide NothingBetween;
    hide Meets;
    hide EntryAt;
    BlockAt(t, blocks, over, Pair(a, 0, 0, 0), a);
    var nKeyMaps, k := t.cells[keyBlock + 1].w, 0;
    while nKeyMaps > 0
      invariant nKeyMaps + k == |blocks[a].maps|
      invariant Running(t, blocks, over, Pair(a, k, 0, 0))
      decreases nKeyMaps
    {
      BlockAt(t, blocks, over, Pair(a, k, 0, 0), a);
      assert EntryAt(t.cells[..], keyBlock + HDR + 4 * k, blocks[a].maps[k]);
      var key := ReadEntry(t, keyBlock + HDR + 4 * k, blocks[a].maps[k]);
      CompareKey(t, keyBlock, key, a, k, nKeyBlocks, blocks, over);
      k := k + 1;
      nKeyMaps := nKeyMaps - 1;
    }
    NoneAfterKeys(blocks, a, k);
    SkipTo(t, blocks, over, Pair(a, k, 0, 0), Pair(a + 1, 0, 0, 0));
  }

  /** One block of the outer walk: skipped if it is an ITS group; then on to the next one. */
  method KeysOrSkip(t: Table, keyBlock: nat, nKeyBlocks: nat, a: nat, ghost blocks: seq<Block>, over: Overrun)
      returns (next: nat)
    requires Running(t, blocks, over, Pair(a, 0, 0, 0))
    requires a < |blocks| && nKeyBlocks == |blocks| - a && keyBlock == Off(blocks, a)
    modifies t.cells
    ensures Running(t, blocks, over, Pair(a + 1, 0, 0, 0)) && next == Off(blocks, a + 1)
  {
    hide Running, NothingBetween, Meets, EntryAt, LiesAt;
    BlockAt(t, blocks, over, Pair(a, 0, 0, 0), a);
    if t.cells[keyBlock].w == Code(ItsGroup) {
      CodeInjective(blocks[a].kind, ItsGroup);
      NoneAfterKeys(blocks, a, 0);
      SkipTo(t, blocks, over, Pair(a, 0, 0, 0), Pair(a + 1, 0, 0, 0));
    } else {
      CompareKeys(t, keyBlock, a, nKeyBlocks, blocks, over);
    }
    BlockAt(t, blocks, over, Pair(a + 1, 0, 0, 0), a);
    next := keyBlock + HDR + 4 * t.cells[keyBlock + 1].w;
  }

  /** check_mapping_overlap. */
  method CheckMappingOverlap(t: Table, over: Overrun, ghost blocks: seq<Block>)
    requires Tiled(t.cells[..], blocks) && t.numBlocks == |blocks| && Linkable(blocks) && AllFlagged(blocks)
    modifies t.cells
    ensures Tiled(t.cells[..], Flagged(blocks, over))
  {
    hide Tiled, Linkable, AllFlagged;
    var keyBlock, nKeyBlocks, a := FIRST, t.numBlocks, 0;
    PartialStart(blocks, over);
    assert Running(t, blocks, over, Pair(0, 0, 0, 0));
    hide Running;
    while nKeyBlocks > 0
      invariant a <= |blocks| && nKeyBlocks == |blocks| - a && keyBlock == Off(blocks, a)
      invariant Running(t, blocks, over, Pair(a, 0, 0, 0))
      decreases nKeyBlocks
    {
      keyBlock := KeysOrSkip(t, keyBlock, nKeyBlocks, a, blocks, over);
      nKeyBlocks := nKeyBlocks - 1;
      a := a + 1;
    }
    Finished(t, blocks, over, Pair(a, 0, 0, 0));
  }
}
