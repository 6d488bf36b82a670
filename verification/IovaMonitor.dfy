/**
 The IOVA monitor: a ring of the mappings last made in the monitored domain, an iterator over the
 intervals still mapped, and the check that searches the one and then the other for a DMA address.
 */
module IovaMonitor {

  datatype Option<T> = None | Some(value: T)

  const RING_LEN := 4
  const W32: nat := 0x1_0000_0000
  const W64: nat := 0x1_0000_0000_0000_0000

  /** A mapping as the IOMMU layer makes it, and as the ring keeps it: the length is cut to 32 bits. */
  datatype Mapping = Mapping(iova: nat, size: nat)
  datatype Saved = Saved(addr: nat, len: nat)

  const NOTHING := Saved(0, 0)

  function Cut(m: Mapping): Saved { Saved(m.iova % W64, m.size % W32) }

  // ------------------------------------------------------------------ which mappings are recorded

  /**
   Start and stop name a device, which has a domain or is not behind an SMMU. A map names its domain,
   and the domain of a SATA device if the lookup finds one.
   */
  datatype Event = Start(dev: Option<nat>) | Stop(dev: Option<nat>) | Map(dom: nat, mapping: Mapping, sata: Option<nat>)

  /** The monitored domain, and all mappings recorded so far. */
  datatype State = State(domain: Option<nat>, saved: seq<Mapping>)

  function Step(s: State, e: Event): State {
    match e
    case Start(d) => if d.None? then s else s.(domain := d)
    case Stop(d) => if d.None? then s else s.(domain := None)
    case Map(dom, m, sata) =>
      var d := if s.domain.None? then sata else s.domain;
      State(d, if d == Some(dom) then s.saved + [m] else s.saved)
  }

  function Run(s: State, es: seq<Event>, k: nat): State
    requires k <= |es|
  {
    if k == 0 then s else Step(Run(s, es, k - 1), es[k - 1])
  }

  /** The mappings of domain d among the first k events. */
  function MapsOf(es: seq<Event>, k: nat, d: nat): seq<Mapping>
    requires k <= |es|
  {
    if k == 0 then []
    else if es[k - 1].Map? && es[k - 1].dom == d then MapsOf(es, k - 1, d) + [es[k - 1].mapping]
    else MapsOf(es, k - 1, d)
  }

  /** From a start to the next start or stop, exactly the mappings of the started domain are recorded, in order. */
  lemma {:induction false} SessionRecords(s: State, es: seq<Event>, k: nat, d: nat)
    requires 1 <= k <= |es| && es[0] == Start(Some(d)) && forall i :: 1 <= i < k ==> es[i].Map?
    ensures Run(s, es, k) == State(Some(d), s.saved + MapsOf(es, k, d))
  {
    if k == 1 {
      assert Run(s, es, 0) == s && MapsOf(es, 0, d) == [];
    } else {
      SessionRecords(s, es, k - 1, d);
      assert es[k - 1].Map?;
    }
  }

  /**
   Stopping does not end the recording for good: the first map after it resumes with the SATA device's
   domain, and is itself recorded exactly if it is in that domain.
   */
  lemma {:induction false} StopIsUndone(s: State, dev: nat, dom: nat, m: Mapping, sata: Option<nat>)
    ensures var t := Run(s, [Stop(Some(dev)), Map(dom, m, sata)], 2);
            t.domain == sata && (t.saved == s.saved + [m] <==> sata == Some(dom)) && (t.saved == s.saved <==>
              sata != Some(dom))
  {
    var es := [Stop(Some(dev)), Map(dom, m, sata)];
    assert Run(s, es, 0) == s && Run(s, es, 1) == s.(domain := None);
    assert |s.saved + [m]| != |s.saved|;
  }

  /** A device without a domain neither starts nor stops anything; one with a domain decides which one is monitored. */
  lemma {:induction false} DomainAfter(s: State, dev: Option<nat>)
    ensures var a, b := Run(s, [Start(dev)], 1), Run(s, [Stop(dev)], 1);
            && a.saved == s.saved == b.saved
            && (dev.None? ==> a.domain == s.domain == b.domain)
            && (dev.Some? ==> a.domain == dev && b.domain == None)
  {
    assert Run(s, [Start(dev)], 0) == s == Run(s, [Stop(dev)], 0);
  }

  // ------------------------------------------------------------------ range test, 64 bits wide

  predicate InRange(addr: nat, base: nat, size: nat) { addr >= base && addr < (base + size) % W64 }

  /** It is interval membership, except that a range reaching 2^64 contains nothing. */
  lemma {:induction false} InRangeExact(addr: nat, base: nat, size: nat)
    requires addr < W64 && base < W64 && size < W64
    ensures InRange(addr, base, size) <==> base + size < W64 && base <= addr < base + size
  {
    if base + size >= W64 {
      assert (base + size) % W64 == base + size - W64;
    }
  }

  // ------------------------------------------------------------------ first phase: the ring

  /** Search from slot k up to the first zero length. */
  predicate InRing(r: seq<Saved>, k: nat, addr: nat)
    requires |r| == RING_LEN
    decreases RING_LEN - k
  {
    k < RING_LEN && r[k].len != 0 && (InRange(addr, r[k].addr, r[k].len) || InRing(r, k + 1, addr))
  }

  /** A slot is looked at exactly if no slot up to it has length zero. */
  lemma {:induction false} InRingExact(r: seq<Saved>, k: nat, addr: nat)
    requires |r| == RING_LEN
    ensures InRing(r, k, addr) <==>
            exists j ::
              && k <= j < RING_LEN && InRange(addr, r[j].addr, r[j].len)
              && forall i :: k <= i <= j ==> r[i].len != 0
    decreases RING_LEN - k
  {
    if k < RING_LEN {
      InRingExact(r, k + 1, addr);
      if InRing(r, k, addr) && !InRange(addr, r[k].addr, r[k].len) {
        var j :| k + 1 <= j < RING_LEN && InRange(addr, r[j].addr, r[j].len) && forall i :: k + 1 <= i <= j ==>
          r[i].len != 0;
        assert forall i :: k <= i <= j ==> r[i].len != 0;
      }
      if j :| k <= j < RING_LEN && InRange(addr, r[j].addr, r[j].len) && forall i :: k <= i <= j ==> r[i].len != 0 {
        assert r[k].len != 0;
      }
    }
  }

  /**
   The ring after recording `saved`: the last four mappings, mapping i in slot i mod 4, and nothing where
   there are fewer.
   */
  ghost predicate Keeps(r: seq<Saved>, saved: seq<Mapping>) {
    && |r| == RING_LEN
    && (forall i :: 0 <= i < |saved| && |saved| - RING_LEN <= i ==> r[i % RING_LEN] == Cut(saved[i]))
    && (forall j :: |saved| <= j < RING_LEN ==> r[j] == NOTHING)
  }

  /** Nothing else is in the ring. */
  lemma {:induction false} KeepsOnly(r: seq<Saved>, saved: seq<Mapping>, j: nat)
    requires Keeps(r, saved) && j < RING_LEN && j < |saved|
    ensures exists i :: 0 <= i < |saved| && |saved| - RING_LEN <= i && i % RING_LEN == j && r[j] == Cut(saved[i])
  {
    var q := (|saved| - 1) / RING_LEN;
    var i := if q * RING_LEN + j < |saved| then q * RING_LEN + j else (q - 1) * RING_LEN + j;
    assert 4 * q <= |saved| - 1 < 4 * q + 4;
    assert 0 <= i < |saved| && |saved| - RING_LEN <= i && i % RING_LEN == j;
    assert r[i % RING_LEN] == Cut(saved[i]);
  }

  lemma {:induction false} KeepsNext(r: seq<Saved>, saved: seq<Mapping>, m: Mapping)
    requires Keeps(r, saved)
    ensures Keeps(r[|saved| % RING_LEN := Cut(m)], saved + [m])
  {
    var n := |saved|;
    forall i | 0 <= i < n + 1 && n + 1 - RING_LEN <= i
      ensures r[n % RING_LEN := Cut(m)][i % RING_LEN] == Cut((saved + [m])[i])
    {
      if i < n { assert i % RING_LEN != n % RING_LEN; }
    }
  }

  /** A recorded mapping of the last four covers addr. */
  ghost predicate Recent(saved: seq<Mapping>, addr: nat) {
    exists i :: 0 <= i < |saved| && |saved| - 4 <= i && saved[i].iova <= addr < saved[i].iova + saved[i].size
  }

  /** What the ring keeps of a mapping: its first address, and its length modulo 4 GiB. */
  lemma {:induction false} CutExact(m: Mapping)
    requires m.iova < 0x1_0000_0000_0000_0000
    ensures Cut(m).addr == m.iova && Cut(m).len < 0x1_0000_0000
    ensures exists q: nat :: m.size == q * 0x1_0000_0000 + Cut(m).len
  {
    assert m.size == (m.size / W32) * 0x1_0000_0000 + Cut(m).len;
  }

  /** A mapping the ring keeps faithfully: its length is not cut, and its end does not wrap. */
  predicate Representable(m: Mapping) { 0 < m.size < W32 && m.iova + m.size < W64 }

  ghost predicate AllRepresentable(saved: seq<Mapping>) {
    forall i :: 0 <= i < |saved| && |saved| - RING_LEN <= i ==> Representable(saved[i])
  }

  lemma {:induction false} CutInRange(m: Mapping, addr: nat)
    requires Representable(m) && addr < W64
    ensures Cut(m) == Saved(m.iova, m.size) && (InRange(addr, Cut(m).addr, Cut(m).len) <==>
            m.iova <= addr < m.iova + m.size)
  {
    assert m.iova % W64 == m.iova && m.size % W32 == m.size;
    InRangeExact(addr, m.iova, m.size);
  }

  lemma {:induction false} RingIsRecent(r: seq<Saved>, saved: seq<Mapping>, addr: nat)
    requires Keeps(r, saved) && AllRepresentable(saved) && addr < W64
    ensures InRing(r, 0, addr) <==> Recent(saved, addr)
  {
    InRingExact(r, 0, addr);
    if InRing(r, 0, addr) {
      var j :| 0 <= j < RING_LEN && InRange(addr, r[j].addr, r[j].len) && forall i :: 0 <= i <= j ==> r[i].len != 0;
      KeepsOnly(r, saved, j);
      var i :| 0 <= i < |saved| && |saved| - RING_LEN <= i && i % RING_LEN == j && r[j] == Cut(saved[i]);
      CutInRange(saved[i], addr);
    }
    if Recent(saved, addr) {
      var i :| 0 <= i < |saved| && |saved| - RING_LEN <= i && saved[i].iova <= addr < saved[i].iova + saved[i].size;
      CutInRange(saved[i], addr);
      forall j | 0 <= j <= i % RING_LEN
        ensures r[j].len != 0
      {
        KeepsOnly(r, saved, j);
        var a :| 0 <= a < |saved| && |saved| - RING_LEN <= a && a % RING_LEN == j && r[j] == Cut(saved[a]);
        CutInRange(saved[a], addr);
      }
    }
  }

  /** A mapping whose length is a multiple of 4 GiB hides itself and every later slot from the first phase. */
  lemma {:induction false} CutHidesLater(r: seq<Saved>, saved: seq<Mapping>, i: nat, addr: nat)
    requires Keeps(r, saved) && i < |saved| && |saved| - RING_LEN <= i && saved[i].size % W32 == 0
    ensures InRing(r, 0, addr) ==> exists j :: 0 <= j < i % RING_LEN && InRange(addr, r[j].addr, r[j].len)
  {
    InRingExact(r, 0, addr);
    assert r[i % RING_LEN].len == 0;
  }

  /** Slot and mapping: a cut range lies inside its mapping. */
  lemma {:induction false} CutInside(m: Mapping, addr: nat)
    requires m.iova < W64 && addr < W64 && InRange(addr, Cut(m).addr, Cut(m).len)
    ensures m.iova <= addr < m.iova + m.size
  {
    InRangeExact(addr, Cut(m).addr, Cut(m).len);
    assert m.size % W32 <= m.size;
  }

  /** Whatever was recorded, the first phase never succeeds for an address outside the last four mappings. */
  lemma {:induction false} RingSound(r: seq<Saved>, saved: seq<Mapping>, addr: nat)
    requires Keeps(r, saved) && addr < W64 && forall i :: 0 <= i < |saved| ==> saved[i].iova < W64
    ensures InRing(r, 0, addr) ==> Recent(saved, addr)
  {
    InRingExact(r, 0, addr);
    if InRing(r, 0, addr) {
      var j :| 0 <= j < RING_LEN && InRange(addr, r[j].addr, r[j].len) && forall i :: 0 <= i <= j ==> r[i].len != 0;
      KeepsOnly(r, saved, j);
      var i :| 0 <= i < |saved| && |saved| - RING_LEN <= i && i % RING_LEN == j && r[j] == Cut(saved[i]);
      CutInside(saved[i], addr);
    }
  }

  /** The range of a slot is the mapping's, for every address. */
  ghost predicate SlotFaithful(m: Mapping) {
    forall addr: nat :: addr < W64 ==> (InRange(addr, Cut(m).addr, Cut(m).len) <==> m.iova <= addr < m.iova + m.size)
  }

  /** That is so exactly for mappings of less than 4 GiB that end below 2^64, and empty ones. */
  lemma {:induction false} SlotFaithfulIff(m: Mapping)
    requires m.iova < W64
    ensures SlotFaithful(m) <==> Representable(m) || m.size == 0
  {
    if Representable(m) || m.size == 0 {
      forall addr: nat | addr < W64
        ensures InRange(addr, Cut(m).addr, Cut(m).len) <==> m.iova <= addr < m.iova + m.size
      {
        InRangeExact(addr, Cut(m).addr, Cut(m).len);
      }
    } else {
      var len := m.size % W32;
      var addr := if m.iova + len < W64 && m.size >= W32 then m.iova + len else m.iova;
      InRangeExact(addr, Cut(m).addr, Cut(m).len);
      assert m.iova <= addr < m.iova + m.size;
      assert !InRange(addr, Cut(m).addr, Cut(m).len);
    }
  }

  // ------------------------------------------------------------------ second phase: the intervals still mapped

  /** A node of the domain's tree, in page frames; the tree is the sequence of its nodes in order. */
  datatype Interval = Interval(pfnLo: nat, pfnHi: nat)

  /** The tree with its granule, and the physical address that an IOVA translates to (0 for none). */
  datatype Tree = Tree(nodes: seq<Interval>, granule: nat, phys: nat -> nat)

  function Base(t: Tree, i: nat): (b: nat)
    requires i < |t.nodes|
    ensures b < W64
  {
    (t.nodes[i].pfnLo * t.granule) % W64
  }

  function Size(t: Tree, i: nat): (z: nat)
    requires i < |t.nodes|
    ensures z < W64
  {
    (((t.nodes[i].pfnHi + 1) % W64 - t.nodes[i].pfnLo) * t.granule) % W64
  }

  predicate Active(t: Tree, i: nat)
    requires i < |t.nodes|
  {
    t.phys(Base(t, i)) != 0
  }

  /** The last active node below n. */
  function Prev(t: Tree, n: nat): (r: Option<nat>)
    requires n <= |t.nodes|
    ensures r.Some? ==> r.value < n && Active(t, r.value) && forall j :: r.value < j < n ==> !Active(t, j)
    ensures r.None? ==> forall j :: 0 <= j < n ==> !Active(t, j)
  {
    if n == 0 then None else if Active(t, n - 1) then Some(n - 1) else Prev(t, n - 1)
  }

  /** The nodes that repeated iterator calls return, from below n until none is left. */
  function Visits(t: Tree, n: nat): seq<nat>
    requires n <= |t.nodes|
  {
    var p := Prev(t, n);
    if p.None? then [] else [p.value] + Visits(t, p.value)
  }

  /** Every active interval is visited exactly once, from the highest down. */
  lemma {:induction false} VisitsExact(t: Tree, n: nat)
    requires n <= |t.nodes|
    ensures forall k :: 0 <= k < |Visits(t, n)| ==> Visits(t, n)[k] < n
    ensures forall j, k :: 0 <= j < k < |Visits(t, n)| ==> Visits(t, n)[j] > Visits(t, n)[k]
    ensures forall i :: 0 <= i < n ==> (i in Visits(t, n) <==> Active(t, i))
  {
    var p := Prev(t, n);
    if p.Some? {
      VisitsExact(t, p.value);
      assert Visits(t, n) == [p.value] + Visits(t, p.value);
      forall i | 0 <= i < n
        ensures i in Visits(t, n) <==> Active(t, i)
      {
        if i > p.value { assert i !in Visits(t, p.value); }
      }
    }
  }

  predicate InTree(t: Tree, n: nat, addr: nat)
    requires n <= |t.nodes|
  {
    var p := Prev(t, n);
    p.Some? && (InRange(addr, Base(t, p.value), Size(t, p.value)) || InTree(t, p.value, addr))
  }

  lemma {:induction false} InTreeExact(t: Tree, n: nat, addr: nat)
    requires n <= |t.nodes|
    ensures InTree(t, n, addr) <==> exists i :: 0 <= i < n && Active(t, i) && InRange(addr, Base(t, i), Size(t, i))
  {
    var p := Prev(t, n);
    if p.Some? { InTreeExact(t, p.value, addr); }
  }

  /**
   No active node is empty or reaches the top of the 64-bit space (the anchor node at the top translates to
   nothing).
   */
  ghost predicate InSpace(t: Tree) {
    forall i :: 0 <= i < |t.nodes| && Active(t, i) ==>
      t.nodes[i].pfnLo <= t.nodes[i].pfnHi < W64 - 1 && (t.nodes[i].pfnHi + 1) * t.granule < W64
  }

  lemma {:induction false} NodeRange(t: Tree, i: nat, addr: nat)
    requires InSpace(t) && i < |t.nodes| && Active(t, i) && addr < W64
    ensures InRange(addr, Base(t, i), Size(t, i)) <==>
            t.nodes[i].pfnLo * t.granule <= addr < (t.nodes[i].pfnHi + 1) * t.granule
  {
    var lo, hi, g := t.nodes[i].pfnLo, t.nodes[i].pfnHi + 1, t.granule;
    Scaled(lo, hi, g);
    assert hi % W64 == hi;
    assert Base(t, i) == lo * g && Size(t, i) == (hi - lo) * g;
    InRangeExact(addr, lo * g, (hi - lo) * g);
  }

  lemma {:induction false} Scaled(lo: nat, hi: nat, g: nat)
    requires lo <= hi && hi * g < W64
    ensures lo * g + (hi - lo) * g == hi * g && lo * g < W64 && 0 <= (hi - lo) * g < W64
    ensures (lo * g) % W64 == lo * g && ((hi - lo) * g) % W64 == (hi - lo) * g
  {
    assert lo * g + (hi - lo) * g == hi * g;
    assert lo * g >= 0 && (hi - lo) * g >= 0;
  }

  /** An interval whose first address translates to something covers addr. */
  ghost predicate Mapped(t: Tree, addr: nat) {
    exists i {:trigger t.nodes[i]} :: 0 <= i < |t.nodes| &&
      t.phys((t.nodes[i].pfnLo * t.granule) % 0x1_0000_0000_0000_0000) != 0 &&
      t.nodes[i].pfnLo * t.granule <= addr < (t.nodes[i].pfnHi + 1) * t.granule
  }

  // ------------------------------------------------------------------ the check

  datatype Status = Success | Skip | Error

  /** The device's domain is absent, or given by its tree. */
  function Check(r: seq<Saved>, dev: Option<Tree>, addr: nat): Status
    requires |r| == RING_LEN
  {
    if dev.None? then Skip
    else if InRing(r, 0, addr) || InTree(dev.value, |dev.value.nodes|, addr) then Success
    else Error
  }

  /** A device without a domain, and no other, is skipped. */
  lemma {:induction false} SkipIff(r: seq<Saved>, dev: Option<Tree>, addr: nat)
    requires |r| == RING_LEN
    ensures Check(r, dev, addr) == Skip <==> dev == None
  {}

  /** The membership test, whatever the history of the monitor. */
  lemma {:induction false} CheckExact(r: seq<Saved>, saved: seq<Mapping>, t: Tree, addr: nat)
    requires Keeps(r, saved) && AllRepresentable(saved) && InSpace(t) && addr < W64
    ensures Check(r, Some(t), addr) == if Recent(saved, addr) || Mapped(t, addr) then Success else Error
  {
    RingIsRecent(r, saved, addr);
    InTreeExact(t, |t.nodes|, addr);
    forall i | 0 <= i < |t.nodes| && Active(t, i)
      ensures InRange(addr, Base(t, i), Size(t, i)) <==>
              t.nodes[i].pfnLo * t.granule <= addr < (t.nodes[i].pfnHi + 1) * t.granule
    {
      NodeRange(t, i, addr);
    }
  }

  /** Without the condition on the mappings a success is still never wrong, and what the second phase finds is found. */
  lemma {:induction false} CheckSound(r: seq<Saved>, saved: seq<Mapping>, t: Tree, addr: nat)
    requires Keeps(r, saved) && InSpace(t) && addr < W64 && forall i :: 0 <= i < |saved| ==> saved[i].iova < W64
    ensures Check(r, Some(t), addr) == Success ==> Recent(saved, addr) || Mapped(t, addr)
    ensures Mapped(t, addr) ==> Check(r, Some(t), addr) == Success
  {
    RingSound(r, saved, addr);
    InTreeExact(t, |t.nodes|, addr);
    forall i | 0 <= i < |t.nodes| && Active(t, i)
      ensures InRange(addr, Base(t, i), Size(t, i)) <==>
              t.nodes[i].pfnLo * t.granule <= addr < (t.nodes[i].pfnHi + 1) * t.granule
    {
      NodeRange(t, i, addr);
    }
  }

  class Monitor {
    const ring: array<Saved>
    var index: nat
    var domain: Option<nat>
    ghost var state: State

    ghost predicate Valid()
      reads this, ring
    {
      && ring.Length == RING_LEN
      && domain == state.domain
      && index == |state.saved| % RING_LEN
      && Keeps(ring[..], state.saved)
    }

    constructor ()
      ensures Valid() && state == State(None, []) && fresh(ring)
    {
      ring := new Saved[RING_LEN](_ => NOTHING);
      index, domain := 0, None;
      state := State(None, []);
    }

    method StartMonitor(dev: Option<nat>)
      requires Valid()
      modifies this`domain, this`state
      ensures Valid() && state == Step(old(state), Start(dev))
    {
      if dev.Some? { domain := dev; }
      state := Step(state, Start(dev));
    }

    method StopMonitor(dev: Option<nat>)
      requires Valid()
      modifies this`domain, this`state
      ensures Valid() && state == Step(old(state), Stop(dev))
    {
      if dev.Some? { domain := None; }
      state := Step(state, Stop(dev));
    }

    /** Falls back on the SATA device's domain when no domain is monitored. */
    method IsDomainMonitored(dom: nat, sata: Option<nat>) returns (b: bool)
      modifies this`domain
      ensures domain == if old(domain).None? then sata else old(domain)
      ensures b <==> domain == Some(dom)
    {
      if domain.None? { domain := sata; }
      b := domain == Some(dom);
    }

    method SaveAddr(addr: nat, length: nat)
      requires ring.Length == RING_LEN && index < RING_LEN
      modifies this`index, ring
      ensures ring[..] == old(ring[..])[old(index) := Saved(addr, length)]
      ensures index == (old(index) + 1) % RING_LEN
    {
      ring[index] := Saved(addr, length);
      index := index + 1;
      if index >= RING_LEN { index := 0; }
    }

    /** The hook in the IOMMU layer's map operation. */
    method Map(dom: nat, m: Mapping, sata: Option<nat>)
      requires Valid()
      modifies this, ring
      ensures Valid() && state == Step(old(state), Event.Map(dom, m, sata))
    {
      var monitored := IsDomainMonitored(dom, sata);
      if monitored {
        KeepsNext(ring[..], state.saved, m);
        SaveAddr(m.iova % W64, m.size % W32);
      }
      state := Step(state, Event.Map(dom, m, sata));
    }

    method GetAddr(k: nat) returns (addr: nat, length: nat)
      requires ring.Length == RING_LEN
      ensures k < RING_LEN ==> addr == ring[k].addr && length == ring[k].len
      ensures k >= RING_LEN ==> length == 0
    {
      if k >= RING_LEN { return 0, 0; }
      return ring[k].addr, ring[k].len;
    }

    /** One call of the iterator: the first active node below `node`, or below the top if there is none. */
    static method GetIova(t: Tree, node: Option<nat>) returns (r: Option<nat>)
      requires node.Some? ==> node.value < |t.nodes|
      ensures r == Prev(t, if node.None? then |t.nodes| else node.value)
    {
      ghost var start := if node.None? then |t.nodes| else node.value;
      var n: nat := if node.None? then |t.nodes| else node.value;
      while n > 0 && t.phys(Base(t, n - 1)) == 0
        invariant n <= start && Prev(t, n) == Prev(t, start)
      {
        n := n - 1;
      }
      r := if n == 0 then None else Some(n - 1);
    }

    method CheckDeviceIova(dev: Option<Tree>, addr: nat) returns (status: Status)
      requires Valid()
      ensures status == Check(ring[..], dev, addr)
    {
      if dev.None? { return Skip; }
      var k: nat, size: nat := 0, 1;
      while size != 0
        invariant k <= RING_LEN && (InRing(ring[..], 0, addr) <==> size != 0 && InRing(ring[..], k, addr))
        decreases RING_LEN - k, size
      {
        var base;
        base, size := GetAddr(k);
        if size != 0 {
          if InRange(addr, base, size) { return Success; }
          k := k + 1;
        }
      }
      var t, node: Option<nat>, more := dev.value, None, true;
      while more
        invariant node.Some? ==> node.value < |t.nodes|
        invariant InTree(t, |t.nodes|, addr) <==> more && InTree(t, if node.None? then |t.nodes| else node.value, addr)
        decreases if more then 1 else 0, if node.None? then |t.nodes| else node.value
      {
        var below := GetIova(t, node);
        more := below.Some?;
        if more {
          if InRange(addr, Base(t, below.value), Size(t, below.value)) { return Success; }
          node := below;
        }
      }
      return Error;
    }
  }
}
