/**
 * The node lists of FIN and DFIN.  A `Node` pairs an item with a support
 * value; a list of nodes is a frontier of candidate items, and extending a
 * node keeps the nodes of larger items in their original order.  `Nodeset`
 * is the summing container both files define.
 */
module FinNodes {
  import opened Mining
  import opened Search

  /** A node of the search: an item and the support value stored with it (its child list is never read). */
  datatype Node = Node(item: int, support: nat)

  /** The items of a node list, in order. */
  function Items(nodes: seq<Node>): (r: seq<int>)
    ensures |r| == |nodes|
    ensures forall k :: 0 <= k < |nodes| ==> r[k] == nodes[k].item
  {
    seq(|nodes|, k requires 0 <= k < |nodes| => nodes[k].item)
  }

  lemma ItemsSnoc(nodes: seq<Node>, n: Node)
    ensures Items(nodes + [n]) == Items(nodes) + [n.item]
  {
  }

  /**
   * The items of `s` larger than `a`, in their order in `s`: the filter of `extend_nodes`.  It keeps
   * exactly the larger items, and drops at least `a` itself when `a` occurs.
   */
  function ItemsAbove(s: seq<int>, a: int): (r: seq<int>)
    ensures forall b :: b in r <==> b in s && a < b
    ensures |r| <= |s|
    ensures a in s ==> |r| < |s|
  {
    if |s| == 0 then []
    else
      assert s == s[..|s| - 1] + [s[|s| - 1]];
      ItemsAbove(s[..|s| - 1], a) + (if a < s[|s| - 1] then [s[|s| - 1]] else [])
  }

  /** Filtering a list without repetitions leaves a list without repetitions. */
  lemma {:induction false} AboveDistinct(s: seq<int>, a: int)
    requires Distinct(s)
    ensures Distinct(ItemsAbove(s, a))
  {
    if |s| != 0 {
      var init := s[..|s| - 1];
      var last := s[|s| - 1];
      assert Distinct(init);
      AboveDistinct(init, a);
      assert last !in init by {
        assert s == init + [last];
      }
    }
  }

  /** The items above `a` of a longer list: the filter of its prefix, then its last item if larger. */
  lemma AboveSnoc(s: seq<int>, x: int, a: int)
    ensures ItemsAbove(s + [x], a) == ItemsAbove(s, a) + (if a < x then [x] else [])
  {
    assert (s + [x])[..|s|] == s;
  }

  /** The facts the branch on the `i`-th node needs: the new prefix and the frontier below it. */
  lemma NodeFacts(prefix: seq<int>, nodes: seq<Node>, i: nat, newNodes: seq<Node>)
    requires Distinct(Items(nodes)) && StrictlyIncreasing(prefix) && Above(prefix, Elems(Items(nodes)))
    requires i < |nodes|
    requires Items(newNodes) == ItemsAbove(Items(nodes), nodes[i].item)
    ensures nodes[i].item in Elems(Items(nodes)) && Elems(prefix) !! Elems(Items(nodes))
    ensures forall b :: b in Elems(Items(newNodes)) <==> b in Elems(Items(nodes)) && nodes[i].item < b
    ensures Distinct(Items(newNodes)) && |newNodes| < |nodes|
    ensures StrictlyIncreasing(prefix + [nodes[i].item]) && Above(prefix + [nodes[i].item], Elems(Items(newNodes)))
    ensures Elems(prefix + [nodes[i].item]) == Elems(prefix) + {nodes[i].item}
  {
    var keys := Elems(Items(nodes));
    var item := nodes[i].item;
    assert Items(nodes)[i] == item;
    AboveDistinct(Items(nodes), item);
    AboveExtend(prefix, keys, item, Elems(Items(newNodes)));
    forall a | a in Elems(prefix) ensures a !in keys {
      var j :| 0 <= j < |prefix| && prefix[j] == a;
    }
  }

  /** The total of the supports stored in a list of nodes. */
  function SumSupports(nodes: seq<Node>): nat
  {
    if |nodes| == 0 then 0 else SumSupports(nodes[..|nodes| - 1]) + nodes[|nodes| - 1].support
  }

  /** A set of nodes whose support is the sum of theirs. */
  class Nodeset {
    var nodes: seq<Node>

    constructor ()
      ensures nodes == []
    {
      nodes := [];
    }

    /** `add_node`: exactly one node more, at the end; the total grows by its support. */
    method AddNode(node: Node)
      modifies this
      ensures nodes == old(nodes) + [node]
      ensures SumSupports(nodes) == old(SumSupports(nodes)) + node.support
    {
      nodes := nodes + [node];
      assert nodes[..|nodes| - 1] == old(nodes);
    }

    /** `get_support`: the sum of the supports of the nodes, accumulated node by node. */
    method GetSupport() returns (support: nat)
      ensures support == SumSupports(nodes)
      ensures |nodes| == 0 ==> support == 0
      ensures forall k :: 0 <= k < |nodes| ==> nodes[k].support <= support
    {
      support := 0;
      for i := 0 to |nodes|
        invariant support == SumSupports(nodes[..i])
        invariant forall k :: 0 <= k < i ==> nodes[k].support <= support
      {
        assert nodes[..i + 1][..i] == nodes[..i];
        support := support + nodes[i].support;
      }
      assert nodes[..|nodes|] == nodes;
    }
  }
}
