/**
 The IO Remapping Table as the builder sees it (DEN0049, section 3): a graph of nodes addressed
 by their byte offset inside the table. References between nodes are offsets.
 */
module Iort {

  const TWO32 := 0x1_0000_0000

  type u32 = x: int | 0 <= x < 0x1_0000_0000

  /** C's wrapping uint32_t arithmetic. */
  function Add32(a: u32, b: u32): u32 { (a + b) % TWO32 }

  function Sub32(a: u32, b: u32): u32 { (a - b) % TWO32 }

  /** One ID mapping; `outputRef` is the IORT offset of the node it points to. */
  datatype Mapping = Mapping(inputBase: u32, idCount: u32, outputBase: u32, outputRef: nat)

  /** A node, without its length. An ITS group carries identifiers where the others carry ID mappings. */
  datatype Node =
    | ItsNode(ids: seq<u32>)
    | NamedNode(name: string, maps: seq<Mapping>)
    | RcNode(segment: u32, cca: u32, ats: u32, maps: seq<Mapping>)
    | SmmuNode(base: nat, ctxInts: seq<nat>, maps: seq<Mapping>)
    | SmmuV3Node(base: nat, maps: seq<Mapping>)
    | PmcgNode(pageBase: nat, gsiv: u32, nodeRef: nat, maps: seq<Mapping>)
    | BadNode(code: nat)
  {
    function Maps(): seq<Mapping> {
      if ItsNode? || BadNode? then [] else maps
    }

    predicate IsSmmu() { SmmuNode? || SmmuV3Node? }
  }

  /**
   The table: nodes and their lengths by offset, and what the table header says about the node
   array. `rank` certifies that references form no cycle; it is not data of the table.
   */
  datatype Iort = Iort(nodes: map<nat, Node>, lengths: map<nat, nat>,
                       nodeOffset: nat, nodeCount: nat, length: nat,
                       ghost rank: map<nat, nat>)
  {
    /** The node at an offset; outside the table nothing of a known type. */
    function At(n: nat): Node { if n in nodes then nodes[n] else BadNode(0) }

    ghost function Rank(n: nat): nat { if n in rank then rank[n] else 0 }

    /** What a reference may name: a node of the table of strictly smaller rank, of a known type, not a PMCG. */
    ghost predicate ValidRef(n: nat, target: nat) {
      && target in nodes && Rank(target) < Rank(n)
      && !nodes[target].BadNode? && !nodes[target].PmcgNode?
    }

    ghost predicate ValidNode(n: nat)
      requires n in nodes
    {
      && (nodes[n].PmcgNode? ==> ValidRef(n, nodes[n].nodeRef))
      && forall j {:trigger nodes[n].Maps()[j]} :: 0 <= j < |nodes[n].Maps()| ==>
        ValidRef(n, nodes[n].Maps()[j].outputRef)
    }

    /** Acyclic and well typed. */
    ghost predicate Valid() {
      forall n {:trigger ValidNode(n)} :: n in nodes ==> ValidNode(n)
    }

    /** m is n or can be reached from n by following references. */
    ghost predicate Reaches(n: nat, m: nat)
      requires Valid() && n in nodes
      decreases Rank(n)
    {
      assert ValidNode(n);
      || n == m
      || (nodes[n].PmcgNode? && Reaches(nodes[n].nodeRef, m))
      || (exists j {:trigger nodes[n].Maps()[j]} ::
            0 <= j < |nodes[n].Maps()| && Reaches(nodes[n].Maps()[j].outputRef, m))
    }
  }

  /** A path can be prolonged by one mapping, and then ends at a smaller rank. */
  lemma {:induction false} ReachesTarget(g: Iort, n: nat, m: nat, j: nat)
    requires g.Valid() && n in g.nodes && m in g.nodes && g.Reaches(n, m) && j < |g.nodes[m].Maps()|
    ensures g.ValidRef(m, g.nodes[m].Maps()[j].outputRef)
    ensures g.Reaches(n, g.nodes[m].Maps()[j].outputRef)
    decreases g.Rank(n)
  {
    assert g.ValidNode(n) && g.ValidNode(m);
    var t := g.nodes[m].Maps()[j].outputRef;
    if n == m {
      assert g.Reaches(t, t);
    } else if g.nodes[n].PmcgNode? && g.Reaches(g.nodes[n].nodeRef, m) {
      ReachesTarget(g, g.nodes[n].nodeRef, m, j);
    } else {
      var i :| 0 <= i < |g.nodes[n].Maps()| && g.Reaches(g.nodes[n].Maps()[i].outputRef, m);
      ReachesTarget(g, g.nodes[n].Maps()[i].outputRef, m, j);
    }
  }

  function Max(a: nat, b: nat): nat { if a < b then b else a }
}
