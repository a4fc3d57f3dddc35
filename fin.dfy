/**
 * FIN: a depth-first scan over increasing item combinations.  The root
 * frontier holds the items whose count meets the ratio threshold, in counting
 * order; `mine_nodes` extends the prefix by each frontier item, counts the
 * new prefix in the transactions, records it when its ratio meets the
 * threshold, and always recurses on the larger frontier items, whether the
 * prefix was frequent or not.
 */
module Fin {
  import opened Mining
  import opened Search
  import opened FinNodes

  /** `visited` holds exactly the combinations of `keys` above `p`: every proper extension of `p` by keys. */
  ghost predicate AllCombinations(p: set<int>, keys: set<int>, visited: set<set<int>>)
  {
    forall x :: x in visited <==> p < x <= p + keys
  }

  /** `visited` holds exactly the combinations of `keys` above `p` whose least new item is `item`. */
  ghost predicate CombinationsFor(p: set<int>, keys: set<int>, item: int, visited: set<set<int>>)
  {
    forall x :: x in visited <==> p < x <= p + keys && LeastNew(x, p, item)
  }

  /** `visited` holds exactly the combinations of `keys` above `p` whose least new item is in `done`. */
  ghost predicate CombinationsUpTo(p: set<int>, keys: set<int>, done: set<int>, visited: set<set<int>>)
  {
    forall x :: x in visited <==> p < x <= p + keys && BranchedIn(x, p, done)
  }

  /**
   * The branch on `item` visits `p + {item}` and then every combination of the larger keys above it:
   * exactly the combinations whose least new item is `item`.
   */
  lemma VisitBranch(p: set<int>, keys: set<int>, item: int, newKeys: set<int>, sub: set<set<int>>)
    requires p !! keys && item in keys
    requires forall b :: b in newKeys <==> b in keys && item < b
    requires AllCombinations(p + {item}, newKeys, sub)
    ensures CombinationsFor(p, keys, item, {p + {item}} + sub)
  {
    var q := p + {item};
    forall x ensures x in {q} + sub <==> p < x <= p + keys && LeastNew(x, p, item) {
      if x in sub {
        assert q < x <= q + newKeys;
        forall b | b in x && b !in p ensures item <= b {
          assert b == item || b in newKeys;
        }
      }
      if p < x <= p + keys && LeastNew(x, p, item) && x != q {
        forall b | b in x && b !in q ensures b in newKeys {
          assert b in keys && item <= b;
        }
        assert q <= x;
      }
    }
  }

  lemma VisitStep(p: set<int>, keys: set<int>, done: set<int>, item: int, visited: set<set<int>>, visits: set<set<int>>)
    requires CombinationsUpTo(p, keys, done, visited)
    requires CombinationsFor(p, keys, item, visits)
    ensures CombinationsUpTo(p, keys, done + {item}, visited + visits)
  {
    forall x ensures x in visited + visits <==> p < x <= p + keys && BranchedIn(x, p, done + {item}) {
      if p < x <= p + keys && BranchedIn(x, p, done + {item}) {
        var a :| a in done + {item} && LeastNew(x, p, a);
        if a != item {
          assert BranchedIn(x, p, done);
        }
      }
      if x in visits {
        assert LeastNew(x, p, item);
      }
    }
  }

  /** Once every key has been branched on, every combination has been visited. */
  lemma VisitDone(p: set<int>, keys: set<int>, visited: set<set<int>>)
    requires CombinationsUpTo(p, keys, keys, visited)
    ensures AllCombinations(p, keys, visited)
  {
    forall x | p < x <= p + keys ensures x in visited {
      var a := LeastNewExists(p, x);
    }
  }

  class FIN {
    const transactions: DB
    /** The support ratio `num / den`: an itemset is frequent when its count over the number of transactions reaches it. */
    const num: nat
    const den: Pos
    const numTransactions: nat
    var frequentItemsets: seq<Pattern>

    constructor (transactions: DB, num: nat, den: Pos)
      ensures this.transactions == transactions && this.num == num && this.den == den
      ensures numTransactions == |transactions| && frequentItemsets == []
    {
      this.transactions := transactions;
      this.num := num;
      this.den := den;
      numTransactions := |transactions|;
      frequentItemsets := [];
    }

    /** `count / num_transactions >= minsup` on exact ratios. */
    predicate ReachesRatio(count: nat)
    {
      count * den >= num * numTransactions
    }

    /** The least count meeting the ratio, `ceil(num / den * num_transactions)`. */
    function MinCount(): (r: nat)
      ensures forall count: nat :: ReachesRatio(count) <==> r <= count
    {
      var r := CeilRatio(numTransactions, num, den);
      assert forall count: nat :: ReachesRatio(count) <==> r <= count by {
        forall count: nat ensures ReachesRatio(count) <==> r <= count {
          MeetsRatio(count, numTransactions, num, den);
        }
      }
      r
    }

    /** `count_single_items`: every item of the transactions with the number of transactions holding it. */
    method CountSingleItems() returns (itemCounts: map<int, nat>)
      ensures itemCounts.Keys == ItemsOf(transactions)
      ensures forall a :: a in itemCounts ==> itemCounts[a] == Support(transactions, {a})
    {
      itemCounts := CountItems(transactions);
    }

    /**
     * `create_initial_nodes`: one node per counted item meeting the ratio, carrying its count, in the
     * (arbitrary) order of the counting map; no item twice.
     */
    method CreateInitialNodes(itemCounts: map<int, nat>) returns (nodes: seq<Node>)
      ensures Distinct(Items(nodes))
      ensures forall a :: a in Items(nodes) <==> a in itemCounts && ReachesRatio(itemCounts[a])
      ensures forall k :: 0 <= k < |nodes| ==> nodes[k].item in itemCounts && nodes[k].support == itemCounts[nodes[k].item]
    {
      nodes := [];
      var rest := itemCounts.Keys;
      while rest != {}
        invariant rest <= itemCounts.Keys
        invariant Distinct(Items(nodes))
        invariant forall a :: a in Items(nodes) <==> a in itemCounts && a !in rest && ReachesRatio(itemCounts[a])
        invariant forall k :: 0 <= k < |nodes| ==> nodes[k].item in itemCounts && nodes[k].support == itemCounts[nodes[k].item]
        decreases rest
      {
        NonEmpty(rest);
        var item :| item in rest;
        var count := itemCounts[item];
        if ReachesRatio(count) {
          ItemsSnoc(nodes, Node(item, count));
          nodes := nodes + [Node(item, count)];
        }
        rest := rest - {item};
      }
    }

    /** `calculate_support`: the number of transactions holding every item; all of them for no item. */
    method CalculateSupport(itemset: seq<int>) returns (support: nat)
      ensures support == Support(transactions, Elems(itemset))
      ensures |itemset| == 0 ==> support == |transactions|
    {
      support := CountSupport(transactions, itemset);
      if |itemset| == 0 {
        assert Elems(itemset) == {};
        SupportOfEmpty(transactions);
      }
    }

    /**
     * `extend_nodes`: the nodes of items larger than the current one, in their order, each carrying the
     * current node's support as a placeholder.
     */
    method ExtendNodes(currentNode: Node, nodes: seq<Node>) returns (newNodes: seq<Node>)
      ensures Items(newNodes) == ItemsAbove(Items(nodes), currentNode.item)
      ensures forall k :: 0 <= k < |newNodes| ==> newNodes[k].support == currentNode.support
    {
      newNodes := [];
      for i := 0 to |nodes|
        invariant Items(newNodes) == ItemsAbove(Items(nodes[..i]), currentNode.item)
        invariant forall k :: 0 <= k < |newNodes| ==> newNodes[k].support == currentNode.support
      {
        assert nodes[..i + 1] == nodes[..i] + [nodes[i]];
        ItemsSnoc(nodes[..i], nodes[i]);
        AboveSnoc(Items(nodes[..i]), nodes[i].item, currentNode.item);
        if nodes[i].item > currentNode.item {
          ItemsSnoc(newNodes, Node(nodes[i].item, currentNode.support));
          newNodes := newNodes + [Node(nodes[i].item, currentNode.support)];
        }
      }
      assert nodes[..|nodes|] == nodes;
    }

    /**
     * One iteration of `mine_nodes`, on the `i`-th node: records the new prefix when frequent, then
     * extends and recurses in every case.  The ghost `mine` lists what it recorded and `visits` the
     * itemsets it counted.
     */
    method MineNode(nodes: seq<Node>, prefix: seq<int>, i: nat) returns (ghost mine: seq<Pattern>, ghost visits: set<set<int>>)
      requires numTransactions == |transactions|
      requires Distinct(Items(nodes)) && StrictlyIncreasing(prefix) && Above(prefix, Elems(Items(nodes)))
      requires i < |nodes|
      modifies this
      ensures frequentItemsets == old(frequentItemsets) + mine
      ensures Branch(transactions, MinCount(), prefix, Elems(Items(nodes)), nodes[i].item, mine)
      ensures CombinationsFor(Elems(prefix), Elems(Items(nodes)), nodes[i].item, visits)
      decreases |nodes|, 0
    {
      var node := nodes[i];
      var newPrefix := prefix + [node.item];
      var support := CalculateSupport(newPrefix);
      ghost var h0 := frequentItemsets;
      if ReachesRatio(support) {
        frequentItemsets := frequentItemsets + [Pattern(newPrefix, support)];
      }
      var newNodes := ExtendNodes(node, nodes);
      NodeFacts(prefix, nodes, i, newNodes);
      ghost var sub, subVisits := MineNodes(newNodes, newPrefix);
      ghost var keys := Elems(Items(nodes));
      ghost var newKeys := Elems(Items(newNodes));
      VisitBranch(Elems(prefix), keys, node.item, newKeys, subVisits);
      visits := {Elems(prefix) + {node.item}} + subVisits;
      if ReachesRatio(support) {
        ghost var head := Pattern(newPrefix, support);
        BranchOf(transactions, MinCount(), prefix, keys, node.item, newKeys, head, sub);
        Regroup(h0, [head], sub);
        mine := [head] + sub;
      } else {
        NothingAbove(transactions, MinCount(), newPrefix, newKeys, sub);
        BranchNone(transactions, MinCount(), prefix, keys, node.item);
        mine := [];
      }
    }

    /**
     * `mine_nodes(nodes, prefix)`: records exactly the frequent extensions of the prefix by frontier
     * items, each once and increasing, and counts every one of the extensions on the way.
     */
    method MineNodes(nodes: seq<Node>, prefix: seq<int>) returns (ghost found: seq<Pattern>, ghost visited: set<set<int>>)
      requires numTransactions == |transactions|
      requires Distinct(Items(nodes)) && StrictlyIncreasing(prefix) && Above(prefix, Elems(Items(nodes)))
      modifies this
      ensures frequentItemsets == old(frequentItemsets) + found
      ensures Sound(transactions, MinCount(), prefix, Elems(Items(nodes)), found)
      ensures Complete(transactions, MinCount(), Elems(prefix), Elems(Items(nodes)), found)
      ensures AllCombinations(Elems(prefix), Elems(Items(nodes)), visited)
      decreases |nodes|, 1
    {
      ghost var keys := Elems(Items(nodes));
      ghost var p := Elems(prefix);
      found, visited := [], {};
      ghost var done: set<int> := {};
      ghost var h0 := frequentItemsets;
      for i := 0 to |nodes|
        invariant done == Elems(Items(nodes)[..i])
        invariant frequentItemsets == h0 + found
        invariant Explored(transactions, MinCount(), prefix, keys, done, found)
        invariant CombinationsUpTo(p, keys, done, visited)
      {
        NextDistinct(Items(nodes), i);
        ghost var mine, visits := MineNode(nodes, prefix, i);
        ExploreStep(transactions, MinCount(), prefix, keys, done, nodes[i].item, found, mine);
        VisitStep(p, keys, done, nodes[i].item, visited, visits);
        Regroup(h0, found, mine);
        found, visited := found + mine, visited + visits;
        done := done + {nodes[i].item};
      }
      assert Items(nodes)[..|nodes|] == Items(nodes);
      ExploreDone(transactions, MinCount(), prefix, keys, found);
      VisitDone(p, keys, visited);
    }

    /**
     * `run`: counts the items, builds the root frontier and mines it from the empty prefix, appending
     * to the list.  What is appended is exactly the itemsets whose ratio meets the threshold, each once.
     */
    method Run()
      requires numTransactions == |transactions|
      modifies this
      ensures |old(frequentItemsets)| <= |frequentItemsets|
      ensures frequentItemsets[..|old(frequentItemsets)|] == old(frequentItemsets)
      ensures MinedAll(transactions, MinCount(), frequentItemsets[|old(frequentItemsets)|..])
    {
      var itemCounts := CountSingleItems();
      var rootNodes := CreateInitialNodes(itemCounts);
      ghost var keys := Elems(Items(rootNodes));
      assert StrictlyIncreasing([]) && Above([], keys);
      ghost var found, visited := MineNodes(rootNodes, []);
      forall a | a in ItemsOf(transactions) && MinCount() <= Support(transactions, {a}) ensures a in keys {
        assert ReachesRatio(itemCounts[a]);
      }
      FromEmpty(transactions, MinCount(), keys, found);
      assert frequentItemsets[|old(frequentItemsets)|..] == found;
    }
  }
}
