/**
 The GTDT platform timers (ACPI 6.3, section 5.2.24): the table of timer blocks, the search from a
 flat timer number to a block and a slot, and the choice of the second interrupt.
 */
module Timers {

  const INVALID_INDEX: nat := 0xFFFF_FFFF

  /** One timer of a GT block structure. */
  datatype TimerEntry = TimerEntry(base: nat, el0Base: nat, gsiv: nat, virtGsiv: nat, timerFlags: bv32,
    virtFlags: bv32, commonFlags: bv32)

  /** A platform timer structure: a GT block, or another type such as a watchdog. */
  datatype Platform = GtBlock(blockAddress: nat, timers: seq<TimerEntry>) | OtherType(kind: nat)

  /** One timer as recorded: the three flag words packed into one. */
  datatype Slot = Slot(cntBase: nat, cntEl0Base: nat, gsiv: nat, virtGsiv: nat, flags: bv32)

  /** One recorded block; `slots` are the first timer_count slots, which is how many the block has. */
  datatype Block = Block(cntlBase: nat, slots: seq<Slot>)

  function Pack(e: TimerEntry): bv32 { e.timerFlags | (e.virtFlags << 8) | (e.commonFlags << 16) }

  function Record(e: TimerEntry): Slot { Slot(e.base, e.el0Base, e.gsiv, e.virtGsiv, Pack(e)) }

  /** Bit 16 of the packed flags, read as "secure timer". */
  predicate Secure(s: Slot) { (s.flags >> 16) & 1 == 1 }

  /** It is bit 0 of the common flags, unless a higher bit of the other flag words spills into it. */
  lemma {:induction false} SecureBit(e: TimerEntry)
    ensures Secure(Record(e)) <==>
            e.commonFlags & 1 == 1 || (e.timerFlags >> 16) & 1 == 1 || (e.virtFlags >> 8) & 1 == 1
  {
    var t, v, c := e.timerFlags, e.virtFlags, e.commonFlags;
    assert ((t | (v << 8) | (c << 16)) >> 16) & 1 == ((t >> 16) & 1) | ((v >> 8) & 1) | (c & 1);
  }

  // ------------------------------------------------------------------ flattening

  function RecordAll(es: seq<TimerEntry>, k: nat): (s: seq<Slot>)
    requires k <= |es|
    ensures |s| == k && forall i :: 0 <= i < k ==> s[i] == Record(es[i])
  {
    if k == 0 then [] else RecordAll(es, k - 1) + [Record(es[k - 1])]
  }

  function BlockOf(p: Platform): (b: Block)
    requires p.GtBlock?
    ensures |b.slots| == |p.timers|
  {
    Block(p.blockAddress, RecordAll(p.timers, |p.timers|))
  }

  /** The blocks recorded for the first k platform timer structures. */
  function Blocks(ps: seq<Platform>, k: nat): seq<Block>
    requires k <= |ps|
  {
    if k == 0 then []
    else if ps[k - 1].GtBlock? then Blocks(ps, k - 1) + [BlockOf(ps[k - 1])]
    else Blocks(ps, k - 1)
  }

  /** Number of timers in the first b blocks. */
  function Before(bs: seq<Block>, b: nat): nat
    requires b <= |bs|
  {
    if b == 0 then 0 else Before(bs, b - 1) + |bs[b - 1].slots|
  }

  function Total(bs: seq<Block>): nat { Before(bs, |bs|) }

  /** All timers in the order they were recorded. */
  function Flat(bs: seq<Block>, b: nat): (f: seq<Slot>)
    requires b <= |bs|
    ensures |f| == Before(bs, b)
  {
    if b == 0 then [] else Flat(bs, b - 1) + bs[b - 1].slots
  }

  lemma {:induction false} BeforeGrows(bs: seq<Block>, a: nat, b: nat)
    requires a < b <= |bs|
    ensures Before(bs, a) + |bs[a].slots| <= Before(bs, b)
    decreases b
  {
    if a < b - 1 { BeforeGrows(bs, a, b - 1); }
  }

  lemma {:induction false} FlatAt(bs: seq<Block>, b: nat, a: nat, s: nat)
    requires a < b <= |bs| && s < |bs[a].slots|
    ensures Before(bs, a) + s < Before(bs, b) && Flat(bs, b)[Before(bs, a) + s] == bs[a].slots[s]
    decreases b
  {
    BeforeGrows(bs, a, b);
    if a < b - 1 {
      FlatAt(bs, b - 1, a, s);
    }
  }

  // ------------------------------------------------------------------ from a flat index to a block and a slot

  /** Found: the block and the slot; slot may be the block's timer count when the search stops too early. */
  datatype Place = Invalid | Place(block: nat, slot: nat)

  /** The loop: while the index is beyond the block (strictly or not), take the block's timers off and move on. */
  function Seek(bs: seq<Block>, b: nat, index: nat, strict: bool): (p: Place)
    requires b <= |bs| && index <= Total(bs) - Before(bs, b) && (b < |bs| || bs == [])
    requires strict || index < Total(bs) - Before(bs, b)
    ensures p.Place?
    decreases |bs| - b
  {
    if b == |bs| then Place(b, index)
    else if (if strict then index > |bs[b].slots| else index >= |bs[b].slots|) then
      BeforeStep(bs, b);
      Seek(bs, b + 1, index - |bs[b].slots|, strict)
    else Place(b, index)
  }

  lemma {:induction false} BeforeStep(bs: seq<Block>, b: nat)
    requires b < |bs|
    ensures Before(bs, b + 1) == Before(bs, b) + |bs[b].slots| <= Total(bs)
    ensures b + 1 == |bs| ==> Total(bs) == Before(bs, b) + |bs[b].slots|
  {
    BeforeGrows(bs, b, |bs|);
  }

  /** The search as written compares with `>` throughout. */
  function Written(bs: seq<Block>, index: nat): Place {
    if index > Total(bs) then Invalid else Seek(bs, 0, index, true)
  }

  /** The search as meant: an index is valid below the total, and a slot is valid below the block's count. */
  function Meant(bs: seq<Block>, index: nat): Place {
    if index >= Total(bs) then Invalid else Seek(bs, 0, index, false)
  }

  predicate ValidPlace(bs: seq<Block>, b: nat, s: nat) { b < |bs| && s < |bs[b].slots| }

  /** What the loop settles on, in either form. */
  lemma {:induction false} SeekExact(bs: seq<Block>, b: nat, index: nat, strict: bool)
    requires b < |bs| && index <= Total(bs) - Before(bs, b) && (strict || index < Total(bs) - Before(bs, b))
    ensures var p := Seek(bs, b, index, strict);
            && p.Place? && b <= p.block < |bs| && Before(bs, p.block) + p.slot == Before(bs, b) + index
            && (if strict then p.slot <= |bs[p.block].slots| else p.slot < |bs[p.block].slots|)
            && (strict && p.block > b ==> p.slot >= 1)
    decreases |bs| - b
  {
    if if strict then index > |bs[b].slots| else index >= |bs[b].slots| {
      BeforeStep(bs, b);
      SeekExact(bs, b + 1, index - |bs[b].slots|, strict);
    }
  }

  /** A flat index names at most one valid place. */
  lemma {:induction false} PlaceUnique(bs: seq<Block>, a: nat, s: nat, b: nat, t: nat)
    requires ValidPlace(bs, a, s) && ValidPlace(bs, b, t) && Before(bs, a) + s == Before(bs, b) + t
    ensures a == b && s == t
  {
    if a < b { BeforeGrows(bs, a, b); }
    if b < a { BeforeGrows(bs, b, a); }
  }

  /** As meant, the search is a bijection from the indexes below the total to the valid places, in recording order. */
  lemma {:induction false} MeantIsBijection(bs: seq<Block>, index: nat)
    ensures index < Total(bs) ==>
              var p := Meant(bs, index);
              p.Place? && ValidPlace(bs, p.block, p.slot) && Before(bs, p.block) + p.slot == index &&
                Flat(bs, |bs|)[index] == bs[p.block].slots[p.slot]
    ensures Meant(bs, index).Invalid? <==> index >= Total(bs)
  {
    if index < Total(bs) {
      SeekExact(bs, 0, index, false);
      var p := Meant(bs, index);
      FlatAt(bs, |bs|, p.block, p.slot);
    }
  }

  lemma {:induction false} MeantInverse(bs: seq<Block>, b: nat, s: nat)
    requires ValidPlace(bs, b, s)
    ensures Before(bs, b) + s < Total(bs) && Meant(bs, Before(bs, b) + s) == Place(b, s)
  {
    FlatAt(bs, |bs|, b, s);
    MeantIsBijection(bs, Before(bs, b) + s);
    var p := Meant(bs, Before(bs, b) + s);
    PlaceUnique(bs, b, s, p.block, p.slot);
  }

  /**
   As written, the flat index still splits into the timers before the block and the slot, but the slot may be
   the block's count.
   */
  lemma {:induction false} WrittenSplits(bs: seq<Block>, index: nat)
    requires bs != [] && index <= Total(bs)
    ensures var p := Written(bs, index);
            && p.Place? && p.block < |bs| && Before(bs, p.block) + p.slot == index && p.slot <= |bs[p.block].slots|
            && (!ValidPlace(bs, p.block, p.slot) <==> p.slot == |bs[p.block].slots|)
            && (p.block > 0 ==> p.slot >= 1)
  {
    SeekExact(bs, 0, index, true);
  }

  /** Without any block, index 0 is accepted as block 0, slot 0; as meant it is out of range. */
  lemma {:induction false} WrittenOnNone(index: nat)
    ensures Written([], index) == if index == 0 then Place(0, 0) else Invalid
    ensures Meant([], index).Invalid?
  {
    assert Total([]) == 0;
  }

  /** The index is the number of timers in the blocks before some block other than the first. */
  ghost predicate Boundary(bs: seq<Block>, index: nat) {
    exists b :: 1 <= b <= |bs| && Before(bs, b) == index
  }

  /** The search as written goes wrong exactly on the first timer of every block but the first. */
  lemma {:induction false} WrittenIffNotBoundary(bs: seq<Block>, index: nat)
    requires index < Total(bs)
    ensures Written(bs, index) == Meant(bs, index) <==> !Boundary(bs, index)
    ensures var p := Written(bs, index);
            p.Place? && p.block < |bs| && (Boundary(bs, index) <==> p.slot == |bs[p.block].slots|)
  {
    WrittenSplits(bs, index);
    MeantIsBijection(bs, index);
    var p, m := Written(bs, index), Meant(bs, index);
    if p.slot < |bs[p.block].slots| {
      PlaceUnique(bs, p.block, p.slot, m.block, m.slot);
      if Boundary(bs, index) {
        var b :| 1 <= b <= |bs| && Before(bs, b) == index;
        if b > p.block { BeforeGrows(bs, p.block, b); }
        if b < p.block { BeforeGrows(bs, b, p.block); }
      }
    } else {
      assert Before(bs, p.block + 1) == index;
    }
  }

  // ------------------------------------------------------------------ the timers of the GTDT

  /** The timers of the GT blocks among the first k structures, one after the other. */
  function GtTimers(ps: seq<Platform>, k: nat): seq<TimerEntry>
    requires k <= |ps|
  {
    if k == 0 then [] else if ps[k - 1].GtBlock? then GtTimers(ps, k - 1) + ps[k - 1].timers else GtTimers(ps, k - 1)
  }

  /** The GT blocks among them. */
  function GtBlocks(ps: seq<Platform>, k: nat): seq<Platform>
    requires k <= |ps|
  {
    if k == 0 then [] else if ps[k - 1].GtBlock? then GtBlocks(ps, k - 1) + [ps[k - 1]] else GtBlocks(ps, k - 1)
  }

  /** The slot gives what the entry says, field by field. */
  predicate Copies(s: Slot, e: TimerEntry) {
    && s.cntBase == e.base && s.cntEl0Base == e.el0Base && s.gsiv == e.gsiv && s.virtGsiv == e.virtGsiv
    && s.flags == e.timerFlags | (e.virtFlags << 8) | (e.commonFlags << 16)
  }

  /** Bit 0 of the common flags, unless a higher bit of the other words spills into its place. */
  predicate SecureEntry(e: TimerEntry) {
    e.commonFlags & 1 == 1 || (e.timerFlags >> 16) & 1 == 1 || (e.virtFlags >> 8) & 1 == 1
  }

  lemma {:induction false} RecordCopies(e: TimerEntry)
    ensures Copies(Record(e), e) && (Secure(Record(e)) <==> SecureEntry(e))
  {
    SecureBit(e);
  }

  lemma {:induction false} FlatPrefix(bs: seq<Block>, x: Block, b: nat)
    requires b <= |bs|
    ensures Flat(bs + [x], b) == Flat(bs, b)
  {
    if b > 0 { FlatPrefix(bs, x, b - 1); }
  }

  lemma {:induction false} FlatPush(bs: seq<Block>, x: Block)
    ensures Flat(bs + [x], |bs| + 1) == Flat(bs, |bs|) + x.slots
  {
    FlatPrefix(bs, x, |bs|);
  }

  /** Slot i in flat order is a copy of timer i of the GTDT, and there are no others. */
  ghost predicate FlatCopies(f: seq<Slot>, es: seq<TimerEntry>) {
    |f| == |es| && forall i :: 0 <= i < |es| ==> Copies(f[i], es[i]) && (Secure(f[i]) <==> SecureEntry(es[i]))
  }

  lemma {:induction false} CopiesMore(f: seq<Slot>, es: seq<TimerEntry>, g: seq<Slot>, ts: seq<TimerEntry>)
    requires FlatCopies(f, es) && FlatCopies(g, ts)
    ensures FlatCopies(f + g, es + ts)
  {
    hide Copies, Secure, SecureEntry;
  }

  lemma {:induction false} BlockCopies(p: Platform)
    requires p.GtBlock?
    ensures FlatCopies(BlockOf(p).slots, p.timers)
  {
    forall i | 0 <= i < |p.timers|
      ensures Copies(BlockOf(p).slots[i], p.timers[i]) && (Secure(BlockOf(p).slots[i]) <==> SecureEntry(p.timers[i]))
    {
      RecordCopies(p.timers[i]);
    }
  }

  lemma {:induction false} FlatIsTimers(ps: seq<Platform>, k: nat)
    requires k <= |ps|
    ensures FlatCopies(Flat(Blocks(ps, k), |Blocks(ps, k)|), GtTimers(ps, k))
    ensures Total(Blocks(ps, k)) == |GtTimers(ps, k)|
  {
    hide FlatCopies, BlockOf;
    if k > 0 {
      FlatIsTimers(ps, k - 1);
      var bs, es := Blocks(ps, k - 1), GtTimers(ps, k - 1);
      if ps[k - 1].GtBlock? {
        FlatPush(bs, BlockOf(ps[k - 1]));
        BlockCopies(ps[k - 1]);
        CopiesMore(Flat(bs, |bs|), es, BlockOf(ps[k - 1]).slots, ps[k - 1].timers);
      }
    } else {
      NoneCopied();
    }
    CopiesLength(Flat(Blocks(ps, k), |Blocks(ps, k)|), GtTimers(ps, k));
  }

  lemma {:induction false} NoneCopied()
    ensures FlatCopies([], [])
  {}

  lemma {:induction false} CopiesLength(f: seq<Slot>, es: seq<TimerEntry>)
    requires FlatCopies(f, es)
    ensures |f| == |es|
  {}

  /** Block b of the table is GT block b of the GTDT: its control base, and as many timers as it has. */
  lemma {:induction false} BlockIsGtBlock(ps: seq<Platform>, k: nat, b: nat)
    requires k <= |ps| && b < |GtBlocks(ps, k)|
    ensures |Blocks(ps, k)| == |GtBlocks(ps, k)| && GtBlocks(ps, k)[b].GtBlock?
    ensures Blocks(ps, k)[b].cntlBase == GtBlocks(ps, k)[b].blockAddress
    ensures |Blocks(ps, k)[b].slots| == |GtBlocks(ps, k)[b].timers|
  {
    GtBlockCount(ps, k - 1);
    if b < |GtBlocks(ps, k - 1)| { BlockIsGtBlock(ps, k - 1, b); }
  }

  lemma {:induction false} GtBlockCount(ps: seq<Platform>, k: nat)
    requires k <= |ps|
    ensures |Blocks(ps, k)| == |GtBlocks(ps, k)|
  {
    if k > 0 { GtBlockCount(ps, k - 1); }
  }

  // ------------------------------------------------------------------ the second interrupt

  /** What reading slot p finds; just past a block's timers, or without any block, that is whatever lies there. */
  function SlotAt(bs: seq<Block>, spare: nat -> Slot, p: Place): Slot
    requires p.Place?
  {
    if ValidPlace(bs, p.block, p.slot) then bs[p.block].slots[p.slot] else spare(p.block)
  }

  datatype Choice = NoTimer | Choice(index: nat, intId: nat)

  /** The downward scan from index n - 1, with the search as written. */
  function ScanWritten(bs: seq<Block>, spare: nat -> Slot, n: nat): Choice
    requires n <= Total(bs)
  {
    if n == 0 then NoTimer
    else
      WrittenSplits(bs, n - 1);
      var s := SlotAt(bs, spare, Written(bs, n - 1));
      if Secure(s) then ScanWritten(bs, spare, n - 1) else Choice(n - 1, s.gsiv)
  }

  /** The same scan with the search as meant. */
  function ScanMeant(bs: seq<Block>, n: nat): Choice
    requires n <= Total(bs)
  {
    if n == 0 then NoTimer
    else
      MeantIsBijection(bs, n - 1);
      var s := SlotAt(bs, Unused, Meant(bs, n - 1));
      if Secure(s) then ScanMeant(bs, n - 1) else Choice(n - 1, s.gsiv)
  }

  /** As meant, the scan picks the last non-secure timer with its interrupt, and none exactly if all are secure. */
  lemma {:induction false} ScanMeantPicksLast(bs: seq<Block>, n: nat)
    requires n <= Total(bs)
    ensures match ScanMeant(bs, n)
            case NoTimer => forall i :: 0 <= i < n ==> Secure(Flat(bs, |bs|)[i])
            case Choice(i, g) => i < n && !Secure(Flat(bs, |bs|)[i]) && g == Flat(bs, |bs|)[i].gsiv
                                 && forall j :: i < j < n ==> Secure(Flat(bs, |bs|)[j])
    decreases n
  {
    if n > 0 {
      MeantIsBijection(bs, n - 1);
      ScanMeantPicksLast(bs, n - 1);
    }
  }

  /**
   What the scan as written takes index i for: the slot behind the previous block on a boundary, the timer
   itself elsewhere.
   */
  ghost function TakenFor(bs: seq<Block>, spare: nat -> Slot, i: nat): Slot
    requires i < Total(bs)
  {
    WrittenSplits(bs, i);
    if Boundary(bs, i) then spare(Written(bs, i).block) else Flat(bs, |bs|)[i]
  }

  lemma {:induction false} WrittenReads(bs: seq<Block>, spare: nat -> Slot, i: nat)
    requires i < Total(bs)
    ensures Written(bs, i).Place? && Written(bs, i).block < |bs| &&
            SlotAt(bs, spare, Written(bs, i)) == TakenFor(bs, spare, i)
  {
    WrittenSplits(bs, i);
    WrittenIffNotBoundary(bs, i);
    MeantIsBijection(bs, i);
  }

  /** As written, the scan picks the last index whose slot, as the search finds it, is not marked secure. */
  lemma {:induction false} ScanWrittenPicksLast(bs: seq<Block>, spare: nat -> Slot, n: nat)
    requires n <= Total(bs)
    ensures match ScanWritten(bs, spare, n)
            case NoTimer => forall i :: 0 <= i < n ==> Secure(TakenFor(bs, spare, i))
            case Choice(i, g) => i < n && !Secure(TakenFor(bs, spare, i)) && g == TakenFor(bs, spare, i).gsiv
                                 && forall j :: i < j < n ==> Secure(TakenFor(bs, spare, j))
    decreases n
  {
    if n > 0 {
      WrittenReads(bs, spare, n - 1);
      ScanWrittenPicksLast(bs, spare, n - 1);
    }
  }

  /** An unused slot of the zeroed table. */
  const UNUSED := Slot(0, 0, 0, 0, 0)

  function Unused(b: nat): Slot { UNUSED }

  /**
   On a zeroed table with room behind every block, the scan as written agrees with the one meant exactly
   if no block but the first starts after the timer meant, nor at it unless its interrupt is 0.
   */
  lemma {:induction false} ScansAgreeIff(bs: seq<Block>)
    ensures var w, m := ScanWritten(bs, Unused, Total(bs)), ScanMeant(bs, Total(bs));
            w == m <==> forall i :: 0 <= i < Total(bs) && Boundary(bs, i) ==>
              m.Choice? && (i < m.index || (i == m.index && m.intId == 0))
  {
    var n := Total(bs);
    var w, m := ScanWritten(bs, Unused, n), ScanMeant(bs, n);
    ScanWrittenPicksLast(bs, Unused, n);
    ScanMeantPicksLast(bs, n);
    assert !Secure(UNUSED);
    forall i | 0 <= i < n
      ensures TakenFor(bs, Unused, i) == if Boundary(bs, i) then UNUSED else Flat(bs, |bs|)[i]
    {
    }
    if w == m {
      forall i | 0 <= i < n && Boundary(bs, i)
        ensures m.Choice? && (i < m.index || (i == m.index && m.intId == 0))
      {
        assert !Secure(TakenFor(bs, Unused, i));
      }
    } else if m.Choice? {
      assert !Secure(TakenFor(bs, Unused, m.index));
    }
  }

  /**
   Two blocks of one timer each, the second one secure: the search as written misses it, and the scan picks it
   with interrupt 0.
   */
  lemma {:induction false} SecureTimerPicked(a: Slot, b: Slot)
    requires Secure(b) && !Secure(a)
    ensures var bs := [Block(0, [a]), Block(0, [b])];
            && Total(bs) == 2
            && Meant(bs, 1) == Place(1, 0) && Written(bs, 1) == Place(0, 1)
            && ScanMeant(bs, 2) == Choice(0, a.gsiv) && ScanWritten(bs, Unused, 2) == Choice(1, 0)
  {
    var bs := [Block(0, [a]), Block(0, [b])];
    assert Before(bs, 1) == 1 && Total(bs) == 2 && Before(bs, 0) == 0;
    MeantInverse(bs, 1, 0);
    MeantInverse(bs, 0, 0);
    assert !Secure(UNUSED);
    assert Seek(bs, 0, 1, true) == Place(0, 1);
    assert ScanMeant(bs, 1) == Choice(0, a.gsiv);
  }

  /**
   From the GTDT to the choice: as meant, the scan picks the greatest number of a timer that is not secure, with
   that timer's own interrupt, and none exactly if all timers are secure.
   */
  lemma {:induction false} ChoiceFromGtdt(ps: seq<Platform>)
    ensures var es, bs := GtTimers(ps, |ps|), Blocks(ps, |ps|);
            match ScanMeant(bs, Total(bs))
            case NoTimer => forall i :: 0 <= i < |es| ==> SecureEntry(es[i])
            case Choice(i, intId) => i < |es| && !SecureEntry(es[i]) && intId == es[i].gsiv
                                     && forall j :: i < j < |es| ==> SecureEntry(es[j])
  {
    var bs := Blocks(ps, |ps|);
    FlatIsTimers(ps, |ps|);
    ScanMeantPicksLast(bs, Total(bs));
    hide Secure, SecureEntry, ScanMeant, Flat, Blocks, GtTimers, Total;
  }

  /** As written it does so with the slots read behind a block in the place of the first timers of later blocks. */
  lemma {:induction false} WrittenFromGtdt(ps: seq<Platform>, spare: nat -> Slot, i: nat)
    requires i < |GtTimers(ps, |ps|)|
    ensures Total(Blocks(ps, |ps|)) == |GtTimers(ps, |ps|)|
    ensures !Boundary(Blocks(ps, |ps|), i) ==> Copies(TakenFor(Blocks(ps, |ps|), spare, i), GtTimers(ps, |ps|)[i])
  {
    FlatIsTimers(ps, |ps|);
  }

  // ------------------------------------------------------------------ the table in memory

  datatype InfoType = IsPlatformTimerSecure | SysIntId | SysCntBase | OtherInfo

  /** What a query reports of a slot. */
  function Report(t: InfoType, s: Slot): nat {
    match t
    case IsPlatformTimerSecure => if Secure(s) then 1 else 0
    case SysIntId => s.gsiv
    case SysCntBase => s.cntBase
    case OtherInfo => INVALID_INDEX
  }

  function Queried(bs: seq<Block>, behind: nat -> Slot, t: InfoType, index: nat): nat {
    if t.OtherInfo? || index > Total(bs) then INVALID_INDEX
    else Report(t, SlotAt(bs, behind, Written(bs, index)))
  }

  lemma {:induction false} ScanStart(bs: seq<Block>, behind: nat -> Slot)
    ensures ScanWritten(bs, behind, 0) == NoTimer
  {}

  /**
   What a query by number reports: except at the first timers of later blocks, the field of that timer of the
   GTDT, and 0xFFFFFFFF beyond the number of timers.
   */
  lemma {:induction false} QueryFromGtdt(ps: seq<Platform>, behind: nat -> Slot, index: nat)
    ensures var es, bs := GtTimers(ps, |ps|), Blocks(ps, |ps|);
            && (index < |es| && !Boundary(bs, index) ==>
                  && Queried(bs, behind, SysIntId, index) == es[index].gsiv
                  && Queried(bs, behind, SysCntBase, index) == es[index].base
                  && Queried(bs, behind, IsPlatformTimerSecure, index) == (if SecureEntry(es[index]) then 1 else 0))
            && (index > |es| ==> forall t :: Queried(bs, behind, t, index) == 0xFFFF_FFFF)
            && Queried(bs, behind, OtherInfo, index) == 0xFFFF_FFFF
  {
    var es, bs := GtTimers(ps, |ps|), Blocks(ps, |ps|);
    FlatIsTimers(ps, |ps|);
    if index < |es| && !Boundary(bs, index) {
      WrittenReads(bs, behind, index);
    }
    hide Flat, Blocks, GtTimers, Boundary, Written, SecureEntry, Secure, Total;
  }

  /** One step of the scan in terms of the two queries it makes. */
  lemma {:induction false} ScanStep(bs: seq<Block>, behind: nat -> Slot, n: nat)
    requires 0 < n <= Total(bs)
    ensures bs != []
    ensures ScanWritten(bs, behind, n) == if Queried(bs, behind, IsPlatformTimerSecure, n - 1) == 0
                                          then Choice(n - 1, Queried(bs, behind, SysIntId, n - 1))
                                          else ScanWritten(bs, behind, n - 1)
  {
  }

  lemma {:induction false} BeforeKept(bs: seq<Block>, x: Block, b: nat)
    requires b <= |bs|
    ensures Before(bs + [x], b) == Before(bs, b)
  {
    if b > 0 { BeforeKept(bs, x, b - 1); }
  }

  lemma {:induction false} TotalGrows(bs: seq<Block>, x: Block)
    ensures Total(bs + [x]) == Total(bs) + |x.slots|
  {
    BeforeKept(bs, x, |bs|);
  }

  lemma {:induction false} BlocksFit(ps: seq<Platform>, j: nat, k: nat)
    requires j <= k <= |ps|
    ensures |Blocks(ps, j)| <= |Blocks(ps, k)|
    decreases k
  {
    if j < k { BlocksFit(ps, j, k - 1); }
  }

  lemma {:induction false} BlocksStep(ps: seq<Platform>, k: nat)
    requires k < |ps|
    ensures Blocks(ps, 0) == [] && Total([]) == 0 && |Blocks(ps, k + 1)| <= |Blocks(ps, |ps|)|
    ensures Blocks(ps, k + 1) == if ps[k].GtBlock? then Blocks(ps, k) + [BlockOf(ps[k])] else Blocks(ps, k)
  {
    BlocksFit(ps, k + 1, |ps|);
  }

  /** The timer table: an array of one block entry or more, each with a fixed number of slots. */
  class TimerTable {
    var timerCount: array<nat>
    var cntlBase: array<nat>
    var slots: array2<Slot>
    var numPlatformTimer: nat
    ghost var blocks: seq<Block>

    ghost predicate Shaped()
      reads this, timerCount, cntlBase
    {
      && timerCount.Length == cntlBase.Length == slots.Length0
      && timerCount != cntlBase
      && |blocks| <= slots.Length0 && 0 < slots.Length0
    }

    /** Entry b of the arrays holds block x. */
    ghost predicate Holds(b: nat, x: Block)
      reads this, timerCount, cntlBase, slots
    {
      && b < timerCount.Length == cntlBase.Length == slots.Length0
      && timerCount[b] == |x.slots| <= slots.Length1
      && cntlBase[b] == x.cntlBase
      && forall s :: 0 <= s < |x.slots| ==> slots[b, s] == x.slots[s]
    }

    ghost predicate Valid()
      reads this, timerCount, cntlBase, slots
    {
      && Shaped()
      && (forall b :: 0 <= b < |blocks| ==> Holds(b, blocks[b]))
      && numPlatformTimer == Total(blocks)
    }

    constructor (maxBlocks: nat, maxSlots: nat)
      requires maxBlocks > 0
      ensures Valid() && blocks == []
      ensures slots.Length0 == maxBlocks && slots.Length1 == maxSlots && fresh(timerCount) && fresh(cntlBase) &&
              fresh(slots)
      ensures forall b, s :: 0 <= b < maxBlocks && 0 <= s < maxSlots ==> slots[b, s] == UNUSED
    {
      timerCount := new nat[maxBlocks](_ => 0);
      cntlBase := new nat[maxBlocks](_ => 0);
      slots := new Slot[maxBlocks, maxSlots]((b, s) => UNUSED);
      numPlatformTimer := 0;
      blocks := [];
    }

    /** Copies the timers of one GT block into entry b, counting each. */
    method RecordBlock(b: nat, p: Platform)
      requires Shaped() && b < timerCount.Length && p.GtBlock? && |p.timers| <= slots.Length1
      modifies this`numPlatformTimer, timerCount, cntlBase, slots
      ensures Holds(b, BlockOf(p))
      ensures numPlatformTimer == old(numPlatformTimer) + |p.timers|
      ensures forall a :: 0 <= a < timerCount.Length && a != b ==>
              timerCount[a] == old(timerCount[a]) && cntlBase[a] == old(cntlBase[a])
      ensures forall a, s :: 0 <= a < slots.Length0 && 0 <= s < slots.Length1 && (a != b || s >= |p.timers|) ==>
              slots[a, s] == old(slots[a, s])
    {
      cntlBase[b] := p.blockAddress;
      timerCount[b] := |p.timers|;
      var i := 0;
      while i < timerCount[b]
        invariant i <= timerCount[b] == |p.timers| && cntlBase[b] == p.blockAddress
        invariant numPlatformTimer == old(numPlatformTimer) + i
        invariant forall s :: 0 <= s < i ==> slots[b, s] == Record(p.timers[s])
        invariant forall a :: 0 <= a < timerCount.Length && a != b ==>
                  timerCount[a] == old(timerCount[a]) && cntlBase[a] == old(cntlBase[a])
        invariant forall a, s :: 0 <= a < slots.Length0 && 0 <= s < slots.Length1 && (a != b || s >= i) ==>
                  slots[a, s] == old(slots[a, s])
      {
        var e := p.timers[i];
        slots[b, i] := Slot(e.base, e.el0Base, e.gsiv, e.virtGsiv, Pack(e));
        numPlatformTimer := numPlatformTimer + 1;
        i := i + 1;
      }
    }

    /** Records one more GT block behind those that are there. */
    method RecordNext(b: nat, p: Platform)
      requires Valid() && b == |blocks| < slots.Length0 && p.GtBlock? && |p.timers| <= slots.Length1
      modifies this`numPlatformTimer, this`blocks, timerCount, cntlBase, slots
      ensures Valid() && blocks == old(blocks) + [BlockOf(p)]
      ensures forall a, s :: 0 <= a < slots.Length0 && 0 <= s < slots.Length1 && (a != b || s >= |p.timers|) ==>
              slots[a, s] == old(slots[a, s])
    {
      TotalGrows(blocks, BlockOf(p));
      hide Total, BlockOf;
      RecordBlock(b, p);
      blocks := blocks + [BlockOf(p)];
    }

    /** Records every GT block of the GTDT in turn and skips the other structures. */
    method CreateInfoTable(ps: seq<Platform>)
      requires Shaped() && |Blocks(ps, |ps|)| <= slots.Length0
      requires forall k :: 0 <= k < |ps| && ps[k].GtBlock? ==> |ps[k].timers| <= slots.Length1
      modifies this`numPlatformTimer, this`blocks, timerCount, cntlBase, slots
      ensures Valid() && blocks == Blocks(ps, |ps|)
      ensures forall b, s :: 0 <= b < |blocks| && |blocks[b].slots| <= s < slots.Length1 ==>
              slots[b, s] == old(slots[b, s])
    {
      assert Blocks(ps, 0) == [] && Total([]) == 0;
      hide Blocks, BlockOf, Total;
      numPlatformTimer := 0;
      blocks := [];
      var b, k := 0, 0;
      while k < |ps|
        invariant k <= |ps| && blocks == Blocks(ps, k) && b == |blocks| && Valid()
        invariant forall a, s :: 0 <= a < slots.Length0 && 0 <= s < slots.Length1 ==>
                    (a >= b || s >= |blocks[a].slots|) ==> slots[a, s] == old(slots[a, s])
      {
        BlocksStep(ps, k);
        if ps[k].GtBlock? {
          RecordNext(b, ps[k]);
          b := b + 1;
        }
        k := k + 1;
      }
    }

    /** In memory: the slot that the search as meant gives for number i is a copy of timer i of the GTDT. */
    lemma {:induction false} SlotFromGtdt(ps: seq<Platform>, i: nat)
      requires Valid() && blocks == Blocks(ps, |ps|) && i < |GtTimers(ps, |ps|)|
      ensures numPlatformTimer == |GtTimers(ps, |ps|)|
      ensures var p := Meant(blocks, i);
              p.Place? && p.block < slots.Length0 && p.slot < slots.Length1 &&
                Copies(slots[p.block, p.slot], GtTimers(ps, |ps|)[i])
    {
      FlatIsTimers(ps, |ps|);
      MeantIsBijection(blocks, i);
      assert Holds(Meant(blocks, i).block, blocks[Meant(blocks, i).block]);
      hide Copies, Secure, SecureEntry, Blocks, GtTimers, Meant;
    }

    /** The search, with the comparisons as written. */
    method GetEntryIndex(index: nat) returns (p: Place)
      requires Valid()
      ensures p == Written(blocks, index)
    {
      if index > numPlatformTimer {
        return Invalid;
      }
      var b: nat, rest: nat := 0, index;
      while rest > timerCount[b]
        invariant b < |blocks| || (blocks == [] && b == 0 && rest == 0)
        invariant rest <= Total(blocks) - Before(blocks, b)
        invariant Seek(blocks, b, rest, true) == Seek(blocks, 0, index, true)
        decreases |blocks| - b
      {
        assert Holds(b, blocks[b]);
        BeforeStep(blocks, b);
        rest := rest - timerCount[b];
        b := b + 1;
      }
      assert b < |blocks| ==> Holds(b, blocks[b]);
      p := Place(b, rest);
    }

    /**
     Right behind the timers of block b lies behind(b): the next slot, or what follows a full block in memory.
     Without blocks, the first slot of the first entry is read.
     */
    ghost predicate Behind(behind: nat -> Slot)
      requires Shaped()
      reads this, timerCount, cntlBase, slots
    {
      && (forall b :: 0 <= b < |blocks| && timerCount[b] < slots.Length1 ==> behind(b) == slots[b, timerCount[b]])
      && (blocks == [] && 0 < slots.Length1 ==> behind(0) == slots[0, 0])
    }

    method GetInfo(t: InfoType, index: nat, behind: nat -> Slot) returns (v: nat)
      requires Valid() && Behind(behind)
      ensures v == Queried(blocks, behind, t, index)
    {
      if t.OtherInfo? {
        return INVALID_INDEX;
      }
      var p := GetEntryIndex(index);
      if p.Invalid? {
        return INVALID_INDEX;
      }
      if blocks != [] {
        WrittenSplits(blocks, index);
        assert Holds(p.block, blocks[p.block]);
      }
      var s := if p.slot < slots.Length1 then slots[p.block, p.slot] else behind(p.block);
      match t {
        case IsPlatformTimerSecure => v := if (s.flags >> 16) & 1 == 1 then 1 else 0;
        case SysIntId => v := s.gsiv;
        case SysCntBase => v := s.cntBase;
      }
    }

    /** The scan from the last timer down; it fails with no timer, or with secure timers only. */
    method ConfigureSecondInterrupt(behind: nat -> Slot) returns (r: Choice)
      requires Valid() && Behind(behind)
      ensures r == ScanWritten(blocks, behind, Total(blocks))
    {
      assert numPlatformTimer == Total(blocks) && Shaped();
      hide *;
      ghost var bs, total := blocks, Total(blocks);
      ghost var want := ScanWritten(bs, behind, total);
      ScanStart(bs, behind);
      if numPlatformTimer == 0 {
        return NoTimer;
      }
      var timerNum: nat, nsTimer: nat := numPlatformTimer, 0;
      r := NoTimer;
      while timerNum > 0 && nsTimer == 0
        invariant timerNum <= total
        invariant if nsTimer == 0 then r == NoTimer && ScanWritten(bs, behind, timerNum) == want else r == want
        decreases timerNum
      {
        ScanStep(bs, behind, timerNum);
        timerNum := timerNum - 1;
        var secure := GetInfo(IsPlatformTimerSecure, timerNum, behind);
        if secure == 0 {
          nsTimer := nsTimer + 1;
          var intId := GetInfo(SysIntId, timerNum, behind);
          r := Choice(timerNum, intId);
        }
      }
    }
  }
}
