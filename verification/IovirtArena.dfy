/**
 The arena the blocks live in: one cell per header field (type, num_data_map, data, flags) and one
 per 32-bit word of the data_map array.
 */
module IovirtArena {
  import opened Iort
  import opened IovirtLayout

  datatype Cell = Word(w: nat) | Data(d: NodeData) | FlagBits(f: Flags)

  function Code(kind: Kind): nat {
    match kind
    case ItsGroup => 0
    case NamedComponent => 1
    case RootComplex => 2
    case Smmu => 3
    case SmmuV3 => 4
    case Pmcg => 5
    case Invalid(code) => 6 + code
  }

  /** The first three header cells: what find_block always compares. */
  ghost predicate HeadAt(c: seq<Cell>, o: nat, b: Block) {
    && o + 3 <= |c|
    && c[o] == Word(Code(b.kind)) && c[o + 1] == Word(b.numMaps) && c[o + 2] == Data(b.data)
  }

  ghost predicate IdsAt(c: seq<Cell>, o: nat, ids: seq<u32>) {
    && o + HDR + |ids| <= |c|
    && forall i :: 0 <= i < |ids| ==> c[o + HDR + i] == Word(ids[i])
  }

  ghost predicate EntryAt(c: seq<Cell>, a: nat, e: Entry) {
    && a + 4 <= |c|
    && c[a] == Word(e.inputBase) && c[a + 1] == Word(e.idCount) && c[a + 2] == Word(e.outputBase) &&
      c[a + 3] == Word(e.outputRef)
  }

  /** Block b, as far as it is filled in, lies at offset o. */
  ghost predicate Lays(c: seq<Cell>, o: nat, b: Block) {
    && b.WellFormed() && o + b.Size() <= |c|
    && HeadAt(c, o, b)
    && (b.flags.Flags? ==> c[o + 3] == FlagBits(b.flags))
    && IdsAt(c, o, b.ids)
    && forall j {:trigger b.maps[j]} :: 0 <= j < |b.maps| ==> EntryAt(c, o + HDR + 4 * j, b.maps[j])
  }

  /** The arena is tiled by these blocks from the first block on. */
  ghost predicate Tiled(c: seq<Cell>, blocks: seq<Block>) {
    forall i {:trigger Lays(c, Off(blocks, i), blocks[i])} :: 0 <= i < |blocks| ==> Lays(c, Off(blocks, i), blocks[i])
  }

  lemma {:induction false} LaysFrame(c: seq<Cell>, d: seq<Cell>, o: nat, b: Block)
    requires Lays(c, o, b) && |c| == |d| && forall i :: o <= i < o + b.Size() ==> c[i] == d[i]
    ensures Lays(d, o, b)
  {
    forall j | 0 <= j < |b.maps| ensures EntryAt(d, o + HDR + 4 * j, b.maps[j]) {
      assert EntryAt(c, o + HDR + 4 * j, b.maps[j]);
    }
  }

  /** Writing at or after the end of the blocks leaves all of them in place. */
  lemma {:induction false} TiledFrame(c: seq<Cell>, d: seq<Cell>, blocks: seq<Block>)
    requires Tiled(c, blocks) && |c| == |d| && forall i :: 0 <= i < End(blocks) && i < |c| ==> c[i] == d[i]
    ensures Tiled(d, blocks)
  {
    forall i | 0 <= i < |blocks| ensures Lays(d, Off(blocks, i), blocks[i]) {
      OffGrows(blocks, i, |blocks|);
      LaysFrame(c, d, Off(blocks, i), blocks[i]);
    }
  }

  lemma {:induction false} TiledPush(c: seq<Cell>, blocks: seq<Block>, b: Block)
    requires Tiled(c, blocks) && Lays(c, End(blocks), b)
    ensures Tiled(c, blocks + [b]) && End(blocks + [b]) == End(blocks) + b.Size()
  {
    var more := blocks + [b];
    OffSame(blocks, more, |blocks|);
    assert more[|blocks|] == b && End(more) == Off(more, |blocks|) + b.Size();
    hide Lays, Off;
    forall i | 0 <= i < |more| ensures Lays(c, Off(more, i), more[i]) {
      if i < |blocks| {
        OffSame(blocks, more, i);
        assert more[i] == blocks[i] && Lays(c, Off(blocks, i), blocks[i]);
      }
    }
  }

  lemma {:induction false} TiledTake(c: seq<Cell>, blocks: seq<Block>, k: nat)
    requires Tiled(c, blocks) && k <= |blocks|
    ensures Tiled(c, blocks[..k]) && End(blocks[..k]) == Off(blocks, k)
  {
    OffSameAll(blocks, blocks[..k], k);
    forall i | 0 <= i < k ensures Lays(c, Off(blocks[..k], i), blocks[..k][i]) {
      assert blocks[..k][i] == blocks[i];
    }
  }

  /** Rewriting block k in place leaves the others in place. */
  lemma {:induction false} TiledUpdate(c: seq<Cell>, d: seq<Cell>, blocks: seq<Block>, k: nat, b: Block)
    requires Tiled(c, blocks) && k < |blocks| && |c| == |d| && b.numMaps == blocks[k].numMaps
    requires forall i :: 0 <= i < |c| && !(Off(blocks, k) <= i < Off(blocks, k) + b.Size()) ==> c[i] == d[i]
    requires Lays(d, Off(blocks, k), b)
    ensures Tiled(d, blocks[k := b]) && End(blocks[k := b]) == End(blocks)
  {
    var more := blocks[k := b];
    OffSameAll(blocks, more, |blocks|);
    forall i | 0 <= i < |more| ensures Lays(d, Off(more, i), more[i]) {
      if i != k {
        assert more[i] == blocks[i];
        if i < k { OffGrows(blocks, i, k); } else { OffGrows(blocks, k, i); }
        LaysFrame(c, d, Off(blocks, i), blocks[i]);
      }
    }
  }

  /** A key's scratch copy at the cursor: the header with its flags, and an ITS group's identifiers. */
  ghost predicate KeyAt(c: seq<Cell>, o: nat, key: Block) {
    && key.WellFormed() && key.flags.Flags?
    && HeadAt(c, o, key) && o + HDR <= |c| && c[o + 3] == FlagBits(key.flags)
    && IdsAt(c, o, key.ids)
  }

  /** Cells find_block compares against a block of this header. */
  function CmpSize(b: Block): nat { if b.kind == ItsGroup then 4 + |b.ids| else 3 }

  ghost predicate EqAt(c: seq<Cell>, a: nat, b: nat, k: nat) {
    a + k < |c| && b + k < |c| && c[a + k] == c[b + k]
  }

  ghost predicate SameCells(c: seq<Cell>, a: nat, b: nat, len: nat) {
    forall k: nat :: k < len ==> EqAt(c, a, b, k)
  }

  lemma {:induction false} CodeInjective(a: Kind, b: Kind)
    requires Code(a) == Code(b)
    ensures a == b
  {}

  /** The memory comparison decides exactly whether the headers match. */
  lemma {:induction false} CompareDecides(c: seq<Cell>, cur: nat, key: Block, o: nat, b: Block)
    requires KeyAt(c, cur, key) && Lays(c, o, b) && key.kind == b.kind
    ensures SameCells(c, cur, o, CmpSize(b)) <==> Matches(key, b)
  {
    if SameCells(c, cur, o, CmpSize(b)) {
      assert EqAt(c, cur, o, 1) && EqAt(c, cur, o, 2);
      if b.kind == ItsGroup {
        assert EqAt(c, cur, o, 3);
        forall i | 0 <= i < |b.ids| ensures key.ids[i] == b.ids[i] {
          assert EqAt(c, cur, o, HDR + i);
          assert c[cur + HDR + i] == Word(key.ids[i]) && c[o + HDR + i] == Word(b.ids[i]);
        }
      }
    }
    if Matches(key, b) {
      forall k: nat | k < CmpSize(b) ensures EqAt(c, cur, o, k) {
        if k >= HDR {
          var i := k - HDR;
          assert c[cur + HDR + i] == Word(key.ids[i]) && c[o + HDR + i] == Word(b.ids[i]);
        }
      }
    }
  }
}
