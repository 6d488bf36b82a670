/**
 Blocks of the IOVIRT table and where they lie in the arena. A block is a header (type,
 num_data_map, data, flags) and then num_data_map entries of four words; the next block starts
 right after the last entry.
 */
module IovirtLayout {
  import opened Iort

  datatype Kind = ItsGroup | NamedComponent | RootComplex | Smmu | SmmuV3 | Pmcg | Invalid(code: nat)

  /** The NODE_DATA union, tagged. */
  datatype NodeData =
    | ItsData(itsCount: nat)
    | NameData(name: string)
    | RcData(segment: u32, cca: u32, ats: u32, smmuBase: nat)
    | SmmuData(archMajorRev: nat, base: nat)
    | PmcgData(pageBase: nat, gsiv: u32, nodeRef: nat)
    | ZeroData

  /** The flags word; Unset is a header whose flags have not been written yet. */
  datatype Flags = Flags(devidOverlap: bool, stridOverlap: bool, ctxIntClash: bool) | Unset

  const NO_FLAGS := Flags(false, false, false)

  /** One NODE_DATA_MAP seen as an ID mapping; `outputRef` is an offset into this table. */
  datatype Entry = Entry(inputBase: u32, idCount: u32, outputBase: u32, outputRef: nat)

  /** A block; `maps` grows while the block is being filled and ends with numMaps entries. */
  datatype Block = Block(kind: Kind, numMaps: nat, data: NodeData, flags: Flags, ids: seq<u32>, maps: seq<Entry>)
  {
    function Size(): nat { HDR + 4 * numMaps }

    predicate IsSmmu() { kind == Smmu || kind == SmmuV3 }

    predicate WellFormed() {
      && (kind == ItsGroup <==> data.ItsData?)
      && (kind == ItsGroup ==> data.itsCount == |ids| && numMaps == (|ids| + 3) / 4 && maps == [] && flags.Flags?)
      && (kind != ItsGroup ==> ids == [])
      && (kind == RootComplex <==> data.RcData?)
      && (IsSmmu() <==> data.SmmuData?)
      && |maps| <= numMaps && |ids| <= 4 * numMaps
    }
  }

  /** The comparison of find_block: everything before the flags, and for an ITS group the flags and identifiers too. */
  predicate Matches(key: Block, b: Block) {
    && key.kind == b.kind
    && key.numMaps == b.numMaps
    && key.data == b.data
    && (b.kind == ItsGroup ==> key.flags == b.flags && key.ids == b.ids)
  }

  /** The header occupies four cells; the table's own six counters precede the first block. */
  const HDR: nat := 4
  const FIRST: nat := 6

  /** Offset of the block that follows the first k blocks. */
  function Off(blocks: seq<Block>, k: nat): (o: nat)
    requires k <= |blocks|
    ensures o >= FIRST
  {
    if k == 0 then FIRST else Off(blocks, k - 1) + blocks[k - 1].Size()
  }

  /** Block x lies at this offset. */
  predicate LiesAt(blocks: seq<Block>, x: nat, ref: nat) { x < |blocks| && Off(blocks, x) == ref }

  /** Offset of the cursor when exactly these blocks have been laid out. */
  function End(blocks: seq<Block>): nat { Off(blocks, |blocks|) }

  /** Same number of blocks or more, and every earlier block keeps its size. */
  ghost predicate SameShape(a: seq<Block>, b: seq<Block>, k: nat) {
    && k <= |a| && k <= |b|
    && forall i :: 0 <= i < k ==> a[i].numMaps == b[i].numMaps
  }

  lemma {:induction false} OffSame(a: seq<Block>, b: seq<Block>, k: nat)
    requires SameShape(a, b, k)
    ensures Off(a, k) == Off(b, k)
    decreases k
  {
    if k > 0 { OffSame(a, b, k - 1); }
  }

  lemma {:induction false} OffSameAll(a: seq<Block>, b: seq<Block>, k: nat)
    requires SameShape(a, b, k)
    ensures forall i :: 0 <= i <= k ==> Off(a, i) == Off(b, i)
  {
    forall i | 0 <= i <= k ensures Off(a, i) == Off(b, i) { OffSame(a, b, i); }
  }

  lemma {:induction false} OffGrows(blocks: seq<Block>, i: nat, j: nat)
    requires i < j <= |blocks|
    ensures Off(blocks, i) + blocks[i].Size() <= Off(blocks, j)
    decreases j
  {
    if i < j - 1 { OffGrows(blocks, i, j - 1); }
  }

  /** Different blocks lie at different offsets. */
  lemma {:induction false} OffInjective(blocks: seq<Block>, i: nat, j: nat)
    requires i <= |blocks| && j <= |blocks| && Off(blocks, i) == Off(blocks, j)
    ensures i == j
  {
    if i < j { OffGrows(blocks, i, j); }
    if j < i { OffGrows(blocks, j, i); }
  }
}
