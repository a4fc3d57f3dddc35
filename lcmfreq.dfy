/**
 * LCMFreq: a depth-first miner over horizontal projections.  `recursive_lcm`
 * counts the frontier items in the current dataset, then for each frontier item
 * in ascending order records the extended prefix when it is frequent and
 * recurses on the transactions holding it, with the item removed, over the
 * larger frontier items that were frequent themselves.
 */
module LCMFreq {
  import opened Mining
  import opened Search

  /**
   * The counting loop of `recursive_lcm`: for each transaction and each frontier item it holds, one more
   * count.  Every frontier item ends with its number of transactions; nothing else gets a count.
   */
  method CountFrontier(dataset: DB, items: set<int>) returns (itemCounts: map<int, nat>)
    ensures itemCounts.Keys <= items
    ensures forall a :: a in items ==> Get(itemCounts, a) == Support(dataset, {a})
  {
    itemCounts := map[];
    for i := 0 to |dataset|
      invariant itemCounts.Keys <= items
      invariant forall a :: a in items ==> Get(itemCounts, a) == Support(dataset[..i], {a})
    {
      assert dataset[..i + 1][..i] == dataset[..i];
      var transactionSet := dataset[i];
      var rest := items;
      while rest != {}
        invariant rest <= items && itemCounts.Keys <= items
        invariant forall a :: a in items ==>
          Get(itemCounts, a) == Support(dataset[..i], {a}) + (if a !in rest && a in transactionSet then 1 else 0)
        decreases rest
      {
        NonEmpty(rest);
        var item :| item in rest;
        if item in transactionSet {
          itemCounts := itemCounts[item := Get(itemCounts, item) + 1];
        }
        rest := rest - {item};
      }
    }
    assert dataset[..|dataset|] == dataset;
  }

  /** The larger frontier items whose own count meets the threshold: `remaining_items`. */
  function Remaining(items: set<int>, item: int, itemCounts: map<int, nat>, minsup: nat): (r: set<int>)
    ensures forall b :: b in r ==> b in items && item < b
    ensures forall b :: b in items && item < b && minsup <= Get(itemCounts, b) ==> b in r
  {
    set i | i in items && i > item && Get(itemCounts, i) >= minsup
  }

  /** The facts the branch on `item` needs: its support, the conditioned projection and the next frontier. */
  lemma ItemFacts(db: DB, minsup: nat, prefix: seq<int>, items: set<int>, dataset: DB, itemCounts: map<int, nat>,
                  item: int)
    requires StrictlyIncreasing(prefix) && Above(prefix, items) && item in items
    requires Conditioned(db, prefix, dataset)
    requires forall a :: a in items ==> Get(itemCounts, a) == Support(dataset, {a})
    ensures Get(itemCounts, item) == Support(db, Elems(prefix) + {item})
    ensures Conditioned(db, prefix + [item], Project(dataset, item))
    ensures StrictlyIncreasing(prefix + [item]) && Elems(prefix + [item]) == Elems(prefix) + {item}
    ensures Above(prefix + [item], Remaining(items, item, itemCounts, minsup))
    ensures |Remaining(items, item, itemCounts, minsup)| < |items|
    ensures forall b :: b in items && item < b && minsup <= Support(db, Elems(prefix) + {item} + {b}) ==>
      b in Remaining(items, item, itemCounts, minsup)
  {
    var p := Elems(prefix);
    var next := Remaining(items, item, itemCounts, minsup);
    assert {item} !! p;
    ProjectConditioned(db, prefix, dataset, item);
    AboveExtend(prefix, items, item, next);
    SubsetCard(next, items - {item});
    forall b | b in items && item < b && minsup <= Support(db, p + {item} + {b}) ensures b in next {
      assert {b} !! p;
      SupportAntimonotone(db, p + {b}, p + {item} + {b});
    }
  }

  class LCMFreq {
    /** The support ratio `num / den` given at construction. */
    const num: nat
    const den: nat
    var minSupport: nat
    var frequentItemsets: seq<Pattern>
    var frequentCount: nat

    constructor (num: nat, den: nat)
      requires den > 0
      ensures this.num == num && this.den == den
      ensures minSupport == 0 && frequentItemsets == [] && frequentCount == 0
    {
      this.num := num;
      this.den := den;
      minSupport := 0;
      frequentItemsets := [];
      frequentCount := 0;
    }

    /** `output_frequent_itemset`: one more pattern, counted once. */
    method OutputFrequentItemset(itemset: seq<int>, support: nat)
      modifies this`frequentItemsets, this`frequentCount
      ensures frequentCount == old(frequentCount) + 1
      ensures frequentItemsets == old(frequentItemsets) + [Pattern(itemset, support)]
    {
      frequentCount := frequentCount + 1;
      frequentItemsets := frequentItemsets + [Pattern(itemset, support)];
    }

    /**
     * One iteration of the loop of `recursive_lcm`, on `item`: when its count meets the threshold,
     * outputs `prefix + [item]` and recurses on the projection over the next frontier.  The ghost
     * `mine` lists what the iteration output.
     */
    method LcmItem(ghost db: DB, dataset: DB, prefix: seq<int>, items: set<int>, itemCounts: map<int, nat>, item: int,
                   ghost done: set<int>, ghost found: seq<Pattern>)
      returns (ghost mine: seq<Pattern>)
      requires StrictlyIncreasing(prefix) && Above(prefix, items) && item in items
      requires Conditioned(db, prefix, dataset)
      requires forall a :: a in items ==> Get(itemCounts, a) == Support(dataset, {a})
      requires item !in done && Explored(db, minSupport, prefix, items, done, found)
      modifies this`frequentItemsets, this`frequentCount
      ensures frequentItemsets == old(frequentItemsets) + mine
      ensures frequentCount == old(frequentCount) + |mine|
      ensures Branch(db, minSupport, prefix, items, item, mine)
      ensures Explored(db, minSupport, prefix, items, done + {item}, found + mine)
      decreases |items|, 0
    {
      ItemFacts(db, minSupport, prefix, items, dataset, itemCounts, item);
      var newPrefix := prefix + [item];
      var newDataset := Project(dataset, item);
      var support := Get(itemCounts, item);
      mine := [];
      if support >= minSupport {
        ghost var head := Pattern(newPrefix, support);
        OutputFrequentItemset(newPrefix, support);
        var remainingItems := Remaining(items, item, itemCounts, minSupport);
        ghost var sub := RecursiveLcm(db, newDataset, newPrefix, remainingItems);
        BranchOf(db, minSupport, prefix, items, item, remainingItems, head, sub);
        mine := [head] + sub;
        Regroup(old(frequentItemsets), [head], sub);
      } else {
        BranchNone(db, minSupport, prefix, items, item);
      }
      ExploreStep(db, minSupport, prefix, items, done, item, found, mine);
    }

    /**
     * `recursive_lcm(dataset, prefix, items)` on `db` conditioned on `prefix`: outputs, in depth-first
     * order, exactly the frequent extensions of the prefix by frontier items, each once and increasing.
     * An empty frontier outputs nothing.
     */
    method RecursiveLcm(ghost db: DB, dataset: DB, prefix: seq<int>, items: set<int>) returns (ghost found: seq<Pattern>)
      requires StrictlyIncreasing(prefix) && Above(prefix, items) && Conditioned(db, prefix, dataset)
      modifies this`frequentItemsets, this`frequentCount
      ensures frequentItemsets == old(frequentItemsets) + found
      ensures frequentCount == old(frequentCount) + |found|
      ensures Sound(db, minSupport, prefix, items, found)
      ensures Complete(db, minSupport, Elems(prefix), items, found)
      decreases |items|, 2
    {
      if items == {} {
        found := [];
        ExploreDone(db, minSupport, prefix, items, found);
        return;
      }
      var itemCounts := CountFrontier(dataset, items);
      found := LcmLoop(db, dataset, prefix, items, itemCounts);
      ExploreDone(db, minSupport, prefix, items, found);
    }

    /** The loop of `recursive_lcm` over the frontier items in ascending order, once they are counted. */
    method LcmLoop(ghost db: DB, dataset: DB, prefix: seq<int>, items: set<int>, itemCounts: map<int, nat>)
      returns (ghost found: seq<Pattern>)
      requires StrictlyIncreasing(prefix) && Above(prefix, items) && Conditioned(db, prefix, dataset)
      requires forall a :: a in items ==> Get(itemCounts, a) == Support(dataset, {a})
      modifies this`frequentItemsets, this`frequentCount
      ensures frequentItemsets == old(frequentItemsets) + found
      ensures frequentCount == old(frequentCount) + |found|
      ensures Explored(db, minSupport, prefix, items, items, found)
      decreases |items|, 1
    {
      var order := SortedList(items);
      found := [];
      ghost var done: set<int> := {};
      for i := 0 to |order|
        invariant done == Elems(order[..i])
        invariant frequentItemsets == old(frequentItemsets) + found
        invariant frequentCount == old(frequentCount) + |found|
        invariant Explored(db, minSupport, prefix, items, done, found)
      {
        var item := order[i];
        NextInOrder(order, i);
        ghost var mine := LcmItem(db, dataset, prefix, items, itemCounts, item, done, found);
        Regroup(old(frequentItemsets), found, mine);
        found := found + mine;
        done := done + {item};
      }
      assert order[..|order|] == order;
    }

    /**
     * `run_algorithm` without the timing and printing: the threshold is `ceil(num / den * |dataset|)`;
     * counts every item and mines from the empty prefix over the items meeting it.  The list is reset
     * and then holds exactly the frequent itemsets, each once; `frequent_count` is not reset, so it
     * grows by their number on every run.
     */
    method RunAlgorithm(dataset: DB)
      requires den > 0
      modifies this
      ensures minSupport == CeilRatio(|dataset|, num, den)
      ensures MinedAll(dataset, minSupport, frequentItemsets)
      ensures frequentCount == old(frequentCount) + |frequentItemsets|
    {
      frequentItemsets := [];
      var minsup := CeilRatio(|dataset|, num, den);
      minSupport := minsup;
      var itemCounts := CountItems(dataset);
      var frequentItems := set a | a in itemCounts && itemCounts[a] >= minsup;
      RootConditioned(dataset);
      assert StrictlyIncreasing([]) && Above([], frequentItems);
      ghost var found := RecursiveLcm(dataset, dataset, [], frequentItems);
      assert frequentItemsets == [] + found == found;
      FromEmpty(dataset, minsup, frequentItems, found);
    }
  }
}
