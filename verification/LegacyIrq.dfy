/**
 Legacy interrupt routing: the entries of a PCI routing table are filed by pin into bounded lists,
 up to the first entry that cannot be filed.
 */
module LegacyIrq {

  const PINS := 4

  /** An entry of the routing table; `sourced` says that its source name is not empty. */
  datatype Route = Route(length: nat, pin: nat, sourced: bool, sourceIndex: nat)

  /** What leads to the routing table of a device's bridge. */
  datatype Bridge = NoBridge | NoHandle | NoRouting | Routing(routes: seq<Route>)

  /** The table ends with an entry of length 0. */
  ghost predicate Terminated(rs: seq<Route>) { exists k :: 0 <= k < |rs| && rs[k].length == 0 }

  // ------------------------------------------------------------------ what is filed

  function Lengths(lists: seq<seq<nat>>): (had: seq<nat>)
    ensures |had| == |lists| && forall p :: 0 <= p < |lists| ==> had[p] == |lists[p]|
  {
    seq(|lists|, p requires 0 <= p < |lists| => |lists[p]|)
  }

  /** The source indexes of a pin among the first k entries. */
  function Filed(rs: seq<Route>, k: nat, pin: nat): seq<nat>
    requires k <= |rs|
  {
    if k == 0 then []
    else if rs[k - 1].pin == pin then Filed(rs, k - 1, pin) + [rs[k - 1].sourceIndex]
    else Filed(rs, k - 1, pin)
  }

  /**
   The first test that entry k fails, once the entries before it are filed behind lists of lengths `had`; 0 if
   it passes.
   */
  function Verdict(had: seq<nat>, rs: seq<Route>, k: nat, max: nat): nat
    requires |had| == PINS && k < |rs|
  {
    if rs[k].sourced then 4
    else if rs[k].pin >= PINS then 5
    else if had[rs[k].pin] + |Filed(rs, k, rs[k].pin)| >= max then 6
    else 0
  }

  /** From entry k on, the first that ends the table or fails a test. */
  function Stop(had: seq<nat>, rs: seq<Route>, k: nat, max: nat): (n: nat)
    requires |had| == PINS && k <= |rs|
    ensures k <= n <= |rs|
    ensures forall i :: k <= i < n ==> rs[i].length != 0 && Verdict(had, rs, i, max) == 0
    ensures n < |rs| ==> rs[n].length == 0 || Verdict(had, rs, n, max) != 0
    decreases |rs| - k
  {
    if k == |rs| || rs[k].length == 0 || Verdict(had, rs, k, max) != 0 then k else Stop(had, rs, k + 1, max)
  }

  /** The status names the first failing test of the first bad entry, and is 0 at the end of the table. */
  function Status(had: seq<nat>, rs: seq<Route>, n: nat, max: nat): nat
    requires |had| == PINS && n <= |rs|
  {
    if n == |rs| || rs[n].length == 0 then 0 else Verdict(had, rs, n, max)
  }

  lemma {:induction false} StopsInside(had: seq<nat>, rs: seq<Route>, max: nat)
    requires |had| == PINS && Terminated(rs)
    ensures Stop(had, rs, 0, max) < |rs|
  {
    var k :| 0 <= k < |rs| && rs[k].length == 0;
    assert k >= Stop(had, rs, 0, max);
  }

  /** How many of the first k entries are for this pin. */
  function Rank(rs: seq<Route>, k: nat, pin: nat): nat
    requires k <= |rs|
  {
    if k == 0 then 0 else Rank(rs, k - 1, pin) + if rs[k - 1].pin == pin then 1 else 0
  }

  /**
   The list of a pin is exactly the source indexes of the pin's entries, in the order of the table: that of entry
   i comes behind those of the entries for the pin before it, and there are no others.
   */
  lemma {:induction false} FiledValues(rs: seq<Route>, k: nat, pin: nat)
    requires k <= |rs|
    ensures |Filed(rs, k, pin)| == Rank(rs, k, pin)
    ensures forall i :: 0 <= i < k && rs[i].pin == pin ==>
            Rank(rs, i, pin) < Rank(rs, k, pin) && Filed(rs, k, pin)[Rank(rs, i, pin)] == rs[i].sourceIndex
  {
    if k > 0 { FiledValues(rs, k - 1, pin); }
  }

  /** An entry that can be filed: no source name, one of the four pins, room in the pin's list. */
  predicate Fileable(had: seq<nat>, rs: seq<Route>, i: nat, max: nat)
    requires |had| == PINS && i < |rs|
  {
    !rs[i].sourced && rs[i].pin <= 3 && had[rs[i].pin] + Rank(rs, i, rs[i].pin) < max
  }

  /**
   The entries before the one that stops the loop can all be filed. The status is 0 if that one ends the table, 4
   if it has a source name, else 5 if its pin is none of the four, else 6, and then its list is full.
   */
  lemma {:induction false} StatusExact(had: seq<nat>, rs: seq<Route>, max: nat)
    requires |had| == PINS && Terminated(rs)
    ensures var n := Stop(had, rs, 0, max);
            && n < |rs| && (forall i :: 0 <= i < n ==> rs[i].length > 0 && Fileable(had, rs, i, max))
            && (rs[n].length == 0 || !Fileable(had, rs, n, max))
            && Status(had, rs, n, max) == if rs[n].length == 0 then 0
              else if rs[n].sourced then 4 else if rs[n].pin > 3 then 5 else 6
  {
    StopsInside(had, rs, max);
    var n := Stop(had, rs, 0, max);
    forall i | 0 <= i <= n && (i < n || rs[n].length > 0)
      ensures Verdict(had, rs, i, max) == 0 <==> Fileable(had, rs, i, max)
    {
      FiledValues(rs, i, rs[i].pin);
    }
    if rs[n].length > 0 { FiledValues(rs, n, rs[n].pin); }
  }

  lemma {:induction false} FiledGrows(rs: seq<Route>, j: nat, k: nat, pin: nat)
    requires j <= k <= |rs|
    ensures Filed(rs, j, pin) <= Filed(rs, k, pin)
    decreases k
  {
    if j < k { FiledGrows(rs, j, k - 1, pin); }
  }

  /** No list grows beyond the maximum. */
  lemma {:induction false} Bounded(had: seq<nat>, rs: seq<Route>, k: nat, max: nat, pin: nat)
    requires |had| == PINS && k <= Stop(had, rs, 0, max) && pin < PINS && had[pin] <= max
    ensures had[pin] + |Filed(rs, k, pin)| <= max
  {
    if k > 0 {
      Bounded(had, rs, k - 1, max, pin);
      assert Verdict(had, rs, k - 1, max) == 0;
    }
  }

  function FiledCount(rs: seq<Route>, k: nat, pins: nat): nat
    requires k <= |rs|
  {
    if pins == 0 then 0 else FiledCount(rs, k, pins - 1) + |Filed(rs, k, pins - 1)|
  }

  /** Every entry taken goes to exactly one pin's list. */
  lemma {:induction false} NothingLost(had: seq<nat>, rs: seq<Route>, k: nat, max: nat)
    requires |had| == PINS && k <= Stop(had, rs, 0, max)
    ensures FiledCount(rs, k, PINS) == k
  {
    if k > 0 {
      NothingLost(had, rs, k - 1, max);
      assert Verdict(had, rs, k - 1, max) == 0;
      CountStep(rs, k, PINS);
    } else {
      CountNone(rs, PINS);
    }
  }

  lemma {:induction false} CountNone(rs: seq<Route>, pins: nat)
    ensures FiledCount(rs, 0, pins) == 0
  {
    if pins > 0 { CountNone(rs, pins - 1); }
  }

  lemma {:induction false} CountStep(rs: seq<Route>, k: nat, pins: nat)
    requires 0 < k <= |rs|
    ensures FiledCount(rs, k, pins) == FiledCount(rs, k - 1, pins) + if rs[k - 1].pin < pins then 1 else 0
  {
    if pins > 0 { CountStep(rs, k, pins - 1); }
  }

  /**
   The whole table up to entry t is taken exactly if every entry is well formed and every pin's list has room
   for all of its own.
   */
  lemma {:induction false} TakenIff(had: seq<nat>, rs: seq<Route>, t: nat, max: nat)
    requires |had| == PINS && t < |rs| && rs[t].length == 0 && forall i :: 0 <= i < t ==> rs[i].length != 0
    ensures Status(had, rs, Stop(had, rs, 0, max), max) == 0 <==>
            && (forall i :: 0 <= i < t ==> !rs[i].sourced && rs[i].pin < PINS)
            && (forall p :: 0 <= p < PINS && Filed(rs, t, p) != [] ==> had[p] + |Filed(rs, t, p)| <= max)
  {
    var n := Stop(had, rs, 0, max);
    assert n <= t;
    if n == t {
      forall i | 0 <= i < t
        ensures !rs[i].sourced && rs[i].pin < PINS
      {
        assert Verdict(had, rs, i, max) == 0;
      }
      forall p | 0 <= p < PINS && Filed(rs, t, p) != []
        ensures had[p] + |Filed(rs, t, p)| <= max
      {
        RoomFor(had, rs, t, max, p);
      }
    } else {
      assert Verdict(had, rs, n, max) != 0;
      if !rs[n].sourced && rs[n].pin < PINS {
        FiledGrows(rs, n + 1, t, rs[n].pin);
        assert |Filed(rs, n + 1, rs[n].pin)| == |Filed(rs, n, rs[n].pin)| + 1;
      }
    }
  }

  lemma {:induction false} RoomFor(had: seq<nat>, rs: seq<Route>, k: nat, max: nat, p: nat)
    requires |had| == PINS && p < PINS && k <= Stop(had, rs, 0, max) && Filed(rs, k, p) != []
    ensures had[p] + |Filed(rs, k, p)| <= max
  {
    assert Verdict(had, rs, k - 1, max) == 0;
    if rs[k - 1].pin != p { RoomFor(had, rs, k - 1, max, p); }
  }

  // ------------------------------------------------------------------ the map in memory

  class IrqMap {
    const irqCount: array<nat>
    const irqList: array2<nat>

    constructor (max: nat)
      ensures Shaped() && irqList.Length1 == max && fresh(irqCount) && fresh(irqList)
      ensures forall p :: 0 <= p < PINS ==> irqCount[p] == 0
    {
      irqCount := new nat[PINS](_ => 0);
      irqList := new nat[PINS, max]((_, _) => 0);
    }

    ghost predicate Shaped() { irqCount.Length == irqList.Length0 == PINS }

    /** A pin's list has the length of xs and holds xs, as far as there is room. */
    ghost predicate Lists(p: nat, xs: seq<nat>)
      reads irqCount, irqList
    {
      && Shaped() && p < PINS
      && irqCount[p] == |xs|
      && forall i :: 0 <= i < |xs| && i < irqList.Length1 ==> irqList[p, i] == xs[i]
    }

    /** The map holds the lists it began with, and behind them what the first k entries file. */
    ghost predicate Holds(lists: seq<seq<nat>>, rs: seq<Route>, k: nat)
      requires |lists| == PINS && k <= |rs|
      reads irqCount, irqList
    {
      forall p :: 0 <= p < PINS ==> Lists(p, lists[p] + Filed(rs, k, p))
    }

    /** One entry: the first failing test, or the entry filed and 0. */
    method FileEntry(e: Route, ghost lists: seq<seq<nat>>, ghost rs: seq<Route>, ghost k: nat) returns (status: nat)
      requires |lists| == PINS && k < |rs| && e == rs[k] && Holds(lists, rs, k)
      modifies irqCount, irqList
      ensures status == Verdict(Lengths(lists), rs, k, irqList.Length1)
      ensures Holds(lists, rs, if status == 0 then k + 1 else k)
    {
      if e.sourced { return 4; }
      if e.pin > 3 { return 5; }
      assert forall p :: 0 <= p < PINS ==> Lists(p, lists[p] + Filed(rs, k, p));
      assert Lists(e.pin, lists[e.pin] + Filed(rs, k, e.pin));
      var count := irqCount[e.pin];
      if count >= irqList.Length1 { return 6; }
      irqList[e.pin, count] := e.sourceIndex;
      irqCount[e.pin] := count + 1;
      status := 0;
    }

    /**
     Files the entries; `lists` are the lists that the map already holds. Each list ends as it was plus the
     entries filed under its pin, in order, up to the first entry that cannot be filed.
     */
    method GetLegacyIrqMap(bridge: Bridge, ghost lists: seq<seq<nat>>) returns (status: nat)
      requires |lists| == PINS && Holds(lists, [], 0)
      requires bridge.Routing? ==> Terminated(bridge.routes)
      modifies irqCount, irqList
      ensures !bridge.Routing? ==> status == (if bridge.NoBridge? then 1 else if bridge.NoHandle? then 2 else 3)
      ensures !bridge.Routing? ==> Holds(lists, [], 0)
      ensures bridge.Routing? ==>
                var rs, had, max := bridge.routes, Lengths(lists), irqList.Length1;
                var n := Stop(had, rs, 0, max);
                status == Status(had, rs, n, max) && Holds(lists, rs, n)
    {
      match bridge {
        case NoBridge => return 1;
        case NoHandle => return 2;
        case NoRouting => return 3;
        case Routing(rs) =>
          ghost var had := Lengths(lists);
          StopsInside(had, rs, irqList.Length1);
          assert Holds(lists, rs, 0);
          hide Holds, Verdict, Lengths;
          status := 0;
          var k := 0;
          while status == 0 && rs[k].length > 0
            invariant k <= Stop(had, rs, 0, irqList.Length1)
            invariant status != 0 ==> k == Stop(had, rs, 0, irqList.Length1) && rs[k].length > 0
            invariant status != 0 ==> status == Verdict(had, rs, k, irqList.Length1)
            invariant Holds(lists, rs, k)
            decreases |rs| - k, status == 0
          {
            status := FileEntry(rs[k], lists, rs, k);
            if status == 0 { k := k + 1; }
          }
      }
    }
  }
}
