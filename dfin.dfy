/**
 * DFIN: the FIN scan with two changes.  A prefix is extended and recursed on
 * only when it was recorded as frequent, and each extended node carries the
 * support of the pair it forms with the current item (a value the search
 * never reads).  The threshold is written `count >= minsup * n`.
 */
module Dfin {
  import opened Mining
  import opened Search
  import opened FinNodes

  class DFIN {
    const transactions: DB
    /** The support ratio `num / den`: an itemset is frequent when its count reaches the ratio times the number of transactions. */
    const num: nat
    const den: Pos
    const numTransactions: nat
    var frequentItemsets: seq<Pattern>

    constructor (transactions: DB, num: nat, den: Pos)
      ensures this.transactions == transactions && this.num == num && this.den == den
      ensures numTransactions == |transactions| && frequentItemsets == []
    {
      this.transactions := transactions;
      this.num := num;
      this.den := den;
      numTransactions := |transactions|;
      frequentItemsets := [];
    }

    /** `count >= minsup * num_transactions` on exact ratios. */
    predicate ReachesThreshold(count: nat)
    {
      count * den >= num * numTransactions
    }

    /** The least count reaching the threshold, `ceil(num / den * num_transactions)`. */
    function MinCount(): (r: nat)
      ensures forall count: nat :: ReachesThreshold(count) <==> r <= count
    {
      var r := CeilRatio(numTransactions, num, den);
      assert forall count: nat :: ReachesThreshold(count) <==> r <= count by {
        forall count: nat ensures ReachesThreshold(count) <==> r <= count {
          MeetsRatio(count, numTransactions, num, den);
        }
      }
      r
    }

    /** `count_single_items`: every item of the transactions with the number of transactions holding it. */
    method CountSingleItems() returns (itemCounts: map<int, nat>)
      ensures itemCounts.Keys == ItemsOf(transactions)
      ensures forall a :: a in itemCounts ==> itemCounts[a] == Support(transactions, {a})
    {
      itemCounts := CountItems(transactions);
    }

    /**
     * `create_initial_nodes`: one node per counted item reaching the threshold, carrying its count, in
     * the (arbitrary) order of the counting map; no item twice.
     */
    method CreateInitialNodes(itemCounts: map<int, nat>) returns (nodes: seq<Node>)
      ensures Distinct(Items(nodes))
      ensures forall a :: a in Items(nodes) <==> a in itemCounts && ReachesThreshold(itemCounts[a])
      ensures forall k :: 0 <= k < |nodes| ==> nodes[k].item in itemCounts && nodes[k].support == itemCounts[nodes[k].item]
    {
      nodes := [];
      var rest := itemCounts.Keys;
      while rest != {}
        invariant rest <= itemCounts.Keys
        invariant Distinct(Items(nodes))
        invariant forall a :: a in Items(nodes) <==> a in itemCounts && a !in rest && ReachesThreshold(itemCounts[a])
        invariant forall k :: 0 <= k < |nodes| ==> nodes[k].item in itemCounts && nodes[k].support == itemCounts[nodes[k].item]
        decreases rest
      {
        NonEmpty(rest);
        var item :| item in rest;
        var count := itemCounts[item];
        if ReachesThreshold(count) {
          ItemsSnoc(nodes, Node(item, count));
          nodes := nodes + [Node(item, count)];
        }
        rest := rest - {item};
      }
    }

    /** `calculate_support`: the number of transactions holding every item; all of them for no item. */
    method CalculateSupport(items: seq<int>) returns (support: nat)
      ensures support == Support(transactions, Elems(items))
      ensures |items| == 0 ==> support == |transactions|
    {
      support := CountSupport(transactions, items);
      if |items| == 0 {
        assert Elems(items) == {};
        SupportOfEmpty(transactions);
      }
    }

    /** The node of `item` carrying the support of the pair `{current, item}`. */
    method PairNode(current: int, item: int) returns (node: Node)
      ensures node == Node(item, Support(transactions, {current, item}))
    {
      var support := CalculateSupport([current, item]);
      assert Elems([current, item]) == {current, item};
      node := Node(item, support);
    }

    /** Every node carries the support of its item together with `current`. */
    ghost predicate PairSupports(current: int, nodes: seq<Node>)
    {
      forall k :: 0 <= k < |nodes| ==> nodes[k].support == Support(transactions, {current, nodes[k].item})
    }

    /**
     * `extend_nodes`: the nodes of items larger than the current one, in their order, each carrying the
     * support of its item together with the current item.
     */
    method ExtendNodes(currentNode: Node, nodes: seq<Node>) returns (newNodes: seq<Node>)
      ensures Items(newNodes) == ItemsAbove(Items(nodes), currentNode.item)
      ensures PairSupports(currentNode.item, newNodes)
    {
      newNodes := [];
      for i := 0 to |nodes|
        invariant Items(newNodes) == ItemsAbove(Items(nodes[..i]), currentNode.item)
        invariant PairSupports(currentNode.item, newNodes)
      {
        assert nodes[..i + 1] == nodes[..i] + [nodes[i]];
        ItemsSnoc(nodes[..i], nodes[i]);
        AboveSnoc(Items(nodes[..i]), nodes[i].item, currentNode.item);
        if nodes[i].item > currentNode.item {
          var newNode := PairNode(currentNode.item, nodes[i].item);
          ItemsSnoc(newNodes, newNode);
          newNodes := newNodes + [newNode];
        }
      }
      assert nodes[..|nodes|] == nodes;
    }

    /**
     * One iteration of `mine_nodes`, on the `i`-th node: when the new prefix is frequent, records it,
     * extends and recurses; otherwise does nothing more.  The ghost `mine` lists what it recorded.
     */
    method MineNode(nodes: seq<Node>, prefix: seq<int>, i: nat) returns (ghost mine: seq<Pattern>)
      requires numTransactions == |transactions|
      requires Distinct(Items(nodes)) && StrictlyIncreasing(prefix) && Above(prefix, Elems(Items(nodes)))
      requires i < |nodes|
      modifies this
      ensures frequentItemsets == old(frequentItemsets) + mine
      ensures Branch(transactions, MinCount(), prefix, Elems(Items(nodes)), nodes[i].item, mine)
      decreases |nodes|, 0
    {
      var node := nodes[i];
      var newPrefix := prefix + [node.item];
      var support := CalculateSupport(newPrefix);
      ghost var keys := Elems(Items(nodes));
      if ReachesThreshold(support) {
        ghost var h0 := frequentItemsets;
        ghost var head := Pattern(newPrefix, support);
        frequentItemsets := frequentItemsets + [Pattern(newPrefix, support)];
        var newNodes := ExtendNodes(node, nodes);
        NodeFacts(prefix, nodes, i, newNodes);
        ghost var sub := MineNodes(newNodes, newPrefix);
        BranchOf(transactions, MinCount(), prefix, keys, node.item, Elems(Items(newNodes)), head, sub);
        Regroup(h0, [head], sub);
        mine := [head] + sub;
      } else {
        assert Elems(newPrefix) == Elems(prefix) + {node.item};
        BranchNone(transactions, MinCount(), prefix, keys, node.item);
        mine := [];
      }
    }

    /**
     * `mine_nodes(nodes, prefix)`: records exactly the frequent extensions of the prefix by frontier
     * items, each once and increasing.
     */
    method MineNodes(nodes: seq<Node>, prefix: seq<int>) returns (ghost found: seq<Pattern>)
      requires numTransactions == |transactions|
      requires Distinct(Items(nodes)) && StrictlyIncreasing(prefix) && Above(prefix, Elems(Items(nodes)))
      modifies this
      ensures frequentItemsets == old(frequentItemsets) + found
      ensures Sound(transactions, MinCount(), prefix, Elems(Items(nodes)), found)
      ensures Complete(transactions, MinCount(), Elems(prefix), Elems(Items(nodes)), found)
      decreases |nodes|, 1
    {
      ghost var keys := Elems(Items(nodes));
      found := [];
      ghost var done: set<int> := {};
      ghost var h0 := frequentItemsets;
      for i := 0 to |nodes|
        invariant done == Elems(Items(nodes)[..i])
        invariant frequentItemsets == h0 + found
        invariant Explored(transactions, MinCount(), prefix, keys, done, found)
      {
        NextDistinct(Items(nodes), i);
        ghost var mine := MineNode(nodes, prefix, i);
        ExploreStep(transactions, MinCount(), prefix, keys, done, nodes[i].item, found, mine);
        Regroup(h0, found, mine);
        found := found + mine;
        done := done + {nodes[i].item};
      }
      assert Items(nodes)[..|nodes|] == Items(nodes);
      ExploreDone(transactions, MinCount(), prefix, keys, found);
    }

    /**
     * `run`: counts the items, builds the root frontier and mines it from the empty prefix, appending
     * to the list.  What is appended is exactly the itemsets reaching the threshold, each once.
     */
    method Run()
      requires numTransactions == |transactions|
      modifies this
      ensures |old(frequentItemsets)| <= |frequentItemsets|
      ensures frequentItemsets[..|old(frequentItemsets)|] == old(frequentItemsets)
      ensures MinedAll(transactions, MinCount(), frequentItemsets[|old(frequentItemsets)|..])
    {
      var itemCounts := CountSingleItems();
      var rootNodes := CreateInitialNodes(itemCounts);
      ghost var keys := Elems(Items(rootNodes));
      assert StrictlyIncreasing([]) && Above([], keys);
      ghost var found := MineNodes(rootNodes, []);
      forall a | a in ItemsOf(transactions) && MinCount() <= Support(transactions, {a}) ensures a in keys {
        assert ReachesThreshold(itemCounts[a]);
      }
      FromEmpty(transactions, MinCount(), keys, found);
      assert frequentItemsets[|old(frequentItemsets)|..] == found;
    }
  }
}
