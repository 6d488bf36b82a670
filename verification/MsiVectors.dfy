/**
 The MSI vector list of a device: one node is allocated for each descriptor and linked behind the
 last, until an allocation fails.
 */
module MsiVectors {

  datatype Vector = Vector(lowerAddr: nat, upperAddr: nat, data: nat, control: nat, irqBase: nat, mappedIrqBase: nat,
    irqs: nat)

  class Node {
    var next: Node?
    var vector: Vector

    constructor (v: Vector)
      ensures next == null && vector == v
    {
      next, vector := null, v;
    }
  }

  /** The variable of the caller that receives the list. */
  class ListHead {
    var first: Node?
  }

  /** The k-th allocation of a call succeeds or not. */
  type Alloc = nat -> bool

  /** How many of n allocations come before the first that fails. */
  function Granted(alloc: Alloc, n: nat): (r: nat)
    ensures r <= n && (forall i :: 0 <= i < r ==> alloc(i)) && (r < n ==> !alloc(r))
  {
    if n == 0 then 0
    else if Granted(alloc, n - 1) == n - 1 && alloc(n - 1) then n
    else Granted(alloc, n - 1)
  }

  /** The node behind node i, or null behind the last. */
  function Behind(nodes: seq<Node>, i: nat): Node?
    requires i < |nodes|
  {
    if i < |nodes| - 1 then nodes[i + 1] else null
  }

  ghost predicate Chained(nodes: seq<Node>)
    reads nodes
  {
    forall i :: 0 <= i < |nodes| ==> nodes[i].next == Behind(nodes, i)
  }

  /** The nodes are linked from `first` in order, end with null, and hold the vectors vs. */
  ghost predicate Linked(first: Node?, nodes: seq<Node>, vs: seq<Vector>)
    reads nodes
  {
    && |nodes| == |vs|
    && first == (if nodes == [] then null else nodes[0])
    && Chained(nodes)
    && (forall i :: 0 <= i < |nodes| ==> nodes[i].vector == vs[i])
  }

  /** Two chains that meet in a node are the same from there on. */
  lemma {:induction false} ChainSuffix(nodes: seq<Node>, others: seq<Node>, i: nat, j: nat)
    requires Chained(nodes) && Chained(others)
    requires i < |nodes| && j < |others| && nodes[i] == others[j]
    ensures nodes[i..] == others[j..]
    decreases |nodes| - i
  {
    assert nodes[i].next == Behind(nodes, i) && others[j].next == Behind(others, j);
    if i < |nodes| - 1 {
      ChainSuffix(nodes, others, i + 1, j + 1);
      assert nodes[i..] == [nodes[i]] + nodes[i + 1..] && others[j..] == [others[j]] + others[j + 1..];
    }
  }

  /** A linked list is acyclic: no node occurs in it twice. */
  lemma {:induction false} Acyclic(first: Node?, nodes: seq<Node>, vs: seq<Vector>, i: nat, j: nat)
    requires Linked(first, nodes, vs) && i < j < |nodes|
    ensures nodes[i] != nodes[j]
  {
    if nodes[i] == nodes[j] {
      ChainSuffix(nodes, nodes, i, j);
    }
  }

  /** What a reader finds by following the links is determined by the first node. */
  lemma {:induction false} ReadingUnique(first: Node?, nodes: seq<Node>, vs: seq<Vector>, others: seq<Node>,
      ws: seq<Vector>)
    requires Linked(first, nodes, vs) && Linked(first, others, ws)
    ensures nodes == others && vs == ws
  {
    if nodes != [] {
      ChainSuffix(nodes, others, 0, 0);
      assert nodes[0..] == nodes && others[0..] == others;
    }
  }

  /** Links a new node behind the last one, or makes it the first; it holds the vector of the next descriptor. */
  method Extend(mvector: ListHead, head: Node?, descs: seq<Vector>, vcount: nat, ghost nodes: seq<Node>)
      returns (node: Node)
    requires |nodes| == vcount < |descs|
    requires Linked(if vcount == 0 then null else mvector.first, nodes, descs[..vcount])
    requires head == if vcount == 0 then null else nodes[vcount - 1]
    modifies mvector, head
    ensures fresh(node)
    ensures Linked(mvector.first, nodes + [node], descs[..vcount + 1])
    ensures vcount > 0 ==> mvector.first == old(mvector.first)
  {
    forall i | 0 <= i < |nodes| - 1
      ensures nodes[i] != head
    {
      Acyclic(if nodes == [] then null else mvector.first, nodes, descs[..vcount], i, |nodes| - 1);
    }
    node := new Node(descs[vcount]);
    if head == null {
      mvector.first := node;
    } else {
      head.next := node;
    }
    assert descs[..vcount + 1] == descs[..vcount] + [descs[vcount]];
  }

  /**
   Builds the list from the descriptors of the device (absent if there is no such device). The list holds
   the vectors of the longest prefix whose nodes could be allocated; with none, the caller's variable is
   left as it was.
   */
  method GetMsiVectors(mvector: ListHead?, present: bool, descs: seq<Vector>, alloc: Alloc)
      returns (vcount: nat, ghost nodes: seq<Node>)
    modifies mvector
    ensures vcount == if mvector == null || !present then 0 else Granted(alloc, |descs|)
    ensures mvector != null ==> Linked(if vcount == 0 then null else mvector.first, nodes, descs[..vcount])
    ensures mvector != null && vcount == 0 ==> mvector.first == old(mvector.first)
    ensures fresh(nodes)
  {
    assert Linked(null, [], descs[..0]);
    GrantedStep(alloc, 0);
    hide *;
    vcount, nodes := 0, [];
    if mvector == null || !present {
      return;
    }
    var head: Node? := null;
    while vcount < |descs|
      invariant vcount <= |descs| && |nodes| == vcount && fresh(nodes)
      invariant Granted(alloc, vcount) == vcount
      invariant head == if vcount == 0 then null else nodes[vcount - 1]
      invariant Linked(if vcount == 0 then null else mvector.first, nodes, descs[..vcount])
      invariant vcount == 0 ==> mvector.first == old(mvector.first)
    {
      if !alloc(vcount) {
        break;
      }
      var node := Extend(mvector, head, descs, vcount, nodes);
      head := node;
      nodes := nodes + [node];
      GrantedStep(alloc, vcount);
      vcount := vcount + 1;
    }
    GrantedStops(alloc, vcount, |descs|);
  }

  lemma {:induction false} GrantedStep(alloc: Alloc, k: nat)
    ensures Granted(alloc, 0) == 0
    ensures Granted(alloc, k) == k && alloc(k) ==> Granted(alloc, k + 1) == k + 1
  {
  }

  /** The count no longer changes once an allocation has failed. */
  lemma {:induction false} GrantedStops(alloc: Alloc, k: nat, n: nat)
    requires k <= n && Granted(alloc, k) == k && (k < n ==> !alloc(k))
    ensures Granted(alloc, n) == k
  {
    if k < n { assert forall i :: 0 <= i < Granted(alloc, n) ==> alloc(i); }
  }
}
