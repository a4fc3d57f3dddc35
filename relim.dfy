/**
 * RELIM as written: `mine` counts every item of the current (conditioned)
 * transactions, and for each item meeting the threshold, in ascending order
 * of its local count, records `prefix + [item]` under its set of items and
 * recurses on the transactions holding the item with only that item removed.
 * The same itemset is reached along several orders; keying the result by set
 * makes every visit write the same value.
 */
module Relim {
  import opened Mining

  /** Every recorded itemset is a non-empty set of items of `db` mapped to its true support, which meets the threshold. */
  ghost predicate Recorded(db: DB, minCount: nat, frequent: map<set<int>, nat>)
  {
    forall k :: k in frequent ==> k != {} && k <= ItemsOf(db) && frequent[k] == Support(db, k) && minCount <= frequent[k]
  }

  /** `after` keeps every key of `before`, and each key it adds is a proper extension of `p`. */
  ghost predicate Extends(before: map<set<int>, nat>, after: map<set<int>, nat>, p: set<int>)
  {
    before.Keys <= after.Keys && forall k :: k in after && k !in before ==> p < k
  }

  /** Every frequent extension of `p` by `keys` holding an item of `done` is recorded. */
  ghost predicate FoundThrough(db: DB, minCount: nat, p: set<int>, keys: set<int>, done: set<int>,
                               frequent: map<set<int>, nat>)
  {
    forall x, a :: FrequentExtension(db, minCount, p, keys, x) && a in x && a in done ==> x in frequent
  }

  /** `order` lists `items` once each, by ascending count. */
  ghost predicate AscendingBy(order: seq<int>, items: set<int>, counts: map<int, nat>)
  {
    && Distinct(order) && Elems(order) == items && items <= counts.Keys
    && forall i, j :: 0 <= i < j < |order| ==> counts[order[i]] <= counts[order[j]]
  }

  /** `get_support`: every item of the transactions with the number of transactions holding it. */
  method GetSupport(transactions: DB) returns (support: map<int, nat>)
    ensures support.Keys == ItemsOf(transactions)
    ensures forall a :: a in support ==> support[a] == Support(transactions, {a})
  {
    support := CountItems(transactions);
  }

  /** A non-empty set has an item of least count. */
  lemma LeastCount(rest: set<int>, counts: map<int, nat>) returns (m: int)
    requires rest != {} && rest <= counts.Keys
    ensures m in rest && forall b :: b in rest ==> counts[m] <= counts[b]
    decreases |rest|
  {
    NonEmpty(rest);
    var a :| a in rest;
    if rest == {a} {
      m := a;
    } else {
      var n := LeastCount(rest - {a}, counts);
      m := if counts[a] <= counts[n] then a else n;
    }
  }

  /**
   * `sorted(items, key=local_support)`: the items once each by ascending count; items of equal count
   * come in an arbitrary order, as the set's iteration order decides them.
   */
  method SortByCount(items: set<int>, counts: map<int, nat>) returns (order: seq<int>)
    requires items <= counts.Keys
    ensures AscendingBy(order, items, counts)
  {
    order := [];
    var rest := items;
    while rest != {}
      invariant forall i :: 0 <= i < |order| ==> order[i] in counts
      invariant rest <= items && Distinct(order) && Elems(order) == items - rest
      invariant forall i, j :: 0 <= i < j < |order| ==> counts[order[i]] <= counts[order[j]]
      invariant forall i, b :: 0 <= i < |order| && b in rest ==> counts[order[i]] <= counts[b]
      decreases rest
    {
      var least := LeastCount(rest, counts);
      var m :| m in rest && forall b :: b in rest ==> counts[m] <= counts[b];
      assert Elems(order + [m]) == Elems(order) + {m};
      order := order + [m];
      rest := rest - {m};
    }
  }

  /** The facts the recursion on `item` needs: its support, the conditioned projection and its items. */
  lemma ItemFacts(db: DB, minCount: nat, prefix: seq<int>, dataset: DB, item: int)
    requires Conditioned(db, prefix, dataset) && ItemsOf(dataset) !! Elems(prefix)
    requires item in ItemsOf(dataset)
    ensures Elems(prefix + [item]) == Elems(prefix) + {item} && Elems(prefix) < Elems(prefix) + {item}
    ensures 1 <= Support(dataset, {item}) == Support(db, Elems(prefix) + {item})
    ensures Elems(prefix) + {item} <= ItemsOf(db)
    ensures Conditioned(db, prefix + [item], Project(dataset, item))
    ensures ItemsOf(Project(dataset, item)) !! Elems(prefix + [item])
    ensures |ItemsOf(Project(dataset, item))| < |ItemsOf(dataset)|
  {
    var p := Elems(prefix);
    var q := p + {item};
    assert Elems(prefix + [item]) == q;
    assert {item} !! p;
    ProjectConditioned(db, prefix, dataset, item);
    ProjectItems(dataset, item);
    SubsetCard(ItemsOf(Project(dataset, item)), ItemsOf(dataset) - {item});
    Occurs(dataset, item);
    forall b | b in q ensures b in ItemsOf(db) {
      if b !in ItemsOf(db) {
        SupportOutsideItems(db, q, b);
      }
    }
  }

  /**
   * With a positive threshold, a frequent extension holding `item` is either `prefix + {item}` or a
   * frequent extension of it by items of the projection.
   */
  lemma Transfer(db: DB, minCount: nat, p: set<int>, dataset: DB, item: int, x: set<int>)
    requires 1 <= minCount && item !in p
    requires forall y :: y !! p ==> Support(dataset, y) == Support(db, p + y)
    requires FrequentExtension(db, minCount, p, ItemsOf(dataset), x) && item in x && x != p + {item}
    ensures FrequentExtension(db, minCount, p + {item}, ItemsOf(Project(dataset, item)), x)
  {
    var q := p + {item};
    forall b | b in x && b !in q ensures b in ItemsOf(Project(dataset, item)) {
      ProjectSupport(dataset, item, {b});
      assert {b} + {item} !! p;
      assert p + ({b} + {item}) <= x;
      SupportAntimonotone(db, p + ({b} + {item}), x);
      Occurs(Project(dataset, item), b);
    }
  }

  /** After the recursion on `item`, every frequent extension holding `item` is recorded. */
  lemma FoundStep(db: DB, minCount: nat, prefix: seq<int>, dataset: DB, done: set<int>, item: int,
                  before: map<set<int>, nat>, after: map<set<int>, nat>)
    requires 1 <= minCount
    requires Conditioned(db, prefix, dataset) && ItemsOf(dataset) !! Elems(prefix) && item in ItemsOf(dataset)
    requires FoundThrough(db, minCount, Elems(prefix), ItemsOf(dataset), done, before)
    requires before.Keys <= after.Keys && Elems(prefix) + {item} in after
    requires forall x :: FrequentExtension(db, minCount, Elems(prefix + [item]), ItemsOf(Project(dataset, item)), x) ==> x in after
    ensures FoundThrough(db, minCount, Elems(prefix), ItemsOf(dataset), done + {item}, after)
  {
    var p := Elems(prefix);
    assert Elems(prefix + [item]) == p + {item};
    forall x, a | FrequentExtension(db, minCount, p, ItemsOf(dataset), x) && a in x && a in done + {item}
      ensures x in after
    {
      if a !in done && x != p + {item} {
        Transfer(db, minCount, p, dataset, item, x);
      }
    }
  }

  /** Once every item meeting the threshold has been recursed on, every frequent extension is recorded. */
  lemma FoundDone(db: DB, minCount: nat, prefix: seq<int>, dataset: DB, counts: map<int, nat>, items: set<int>,
                  frequent: map<set<int>, nat>)
    requires Conditioned(db, prefix, dataset) && ItemsOf(dataset) !! Elems(prefix)
    requires forall a :: a in ItemsOf(dataset) && minCount <= Support(dataset, {a}) ==> a in items
    requires FoundThrough(db, minCount, Elems(prefix), ItemsOf(dataset), items, frequent)
    ensures forall x :: FrequentExtension(db, minCount, Elems(prefix), ItemsOf(dataset), x) ==> x in frequent
  {
    var p := Elems(prefix);
    forall x | FrequentExtension(db, minCount, p, ItemsOf(dataset), x) ensures x in frequent {
      var a := LeastNewExists(p, x);
      assert {a} !! p;
      SupportAntimonotone(db, p + {a}, x);
    }
  }

  /** Recording one more itemset with its true support keeps the map recorded and extends it. */
  lemma RecordStep(db: DB, minCount: nat, p: set<int>, frequent: map<set<int>, nat>, key: set<int>, support: nat,
                   start: map<set<int>, nat>)
    requires Recorded(db, minCount, frequent) && Extends(start, frequent, p)
    requires key != {} && key <= ItemsOf(db) && support == Support(db, key) && minCount <= support && p < key
    ensures Recorded(db, minCount, frequent[key := support]) && Extends(start, frequent[key := support], p)
  {
  }

  lemma ExtendsTrans(a: map<set<int>, nat>, b: map<set<int>, nat>, c: map<set<int>, nat>, p: set<int>, q: set<int>)
    requires Extends(a, b, p) && Extends(b, c, q) && p < q
    ensures Extends(a, c, p)
  {
  }

  /** The invariant of the loop of `mine` after recursing on the items of `done`. */
  ghost predicate Progress(db: DB, minCount: nat, prefix: seq<int>, dataset: DB, done: set<int>,
                           frequent: map<set<int>, nat>, result: map<set<int>, nat>)
  {
    && Recorded(db, minCount, result) && Extends(frequent, result, Elems(prefix))
    && FoundThrough(db, minCount, Elems(prefix), ItemsOf(dataset), done, result)
  }

  /** The loop invariant of `mine` after the iteration on `item`. */
  lemma ProgressStep(db: DB, minCount: nat, prefix: seq<int>, dataset: DB, done: set<int>, item: int,
                     frequent: map<set<int>, nat>, before: map<set<int>, nat>, after: map<set<int>, nat>)
    requires Conditioned(db, prefix, dataset) && ItemsOf(dataset) !! Elems(prefix) && item in ItemsOf(dataset)
    requires Progress(db, minCount, prefix, dataset, done, frequent, before)
    requires Recorded(db, minCount, after) && Extends(before, after, Elems(prefix))
    requires Elems(prefix) + {item} in after && 1 <= minCount
    requires forall x :: FrequentExtension(db, minCount, Elems(prefix) + {item}, ItemsOf(Project(dataset, item)), x) ==> x in after
    ensures Progress(db, minCount, prefix, dataset, done + {item}, frequent, after)
  {
    assert Elems(prefix + [item]) == Elems(prefix) + {item};
    FoundStep(db, minCount, prefix, dataset, done, item, before, after);
  }

  /**
   * The nested `mine(transactions, prefix)`, on `dataset` conditioned on `prefix`, writing into the
   * enclosing map: keeps every recorded itemset with its true support, adds only extensions of the
   * prefix, and records every frequent extension of the prefix by items of `dataset`.  Only items of
   * `dataset` are recursed on, so a threshold of zero acts as one.
   */
  method Mine(ghost db: DB, minCount: nat, dataset: DB, prefix: seq<int>, frequent: map<set<int>, nat>)
    returns (result: map<set<int>, nat>)
    requires Conditioned(db, prefix, dataset) && ItemsOf(dataset) !! Elems(prefix)
    requires Recorded(db, Effective(minCount), frequent)
    ensures Recorded(db, Effective(minCount), result) && Extends(frequent, result, Elems(prefix))
    ensures forall x :: FrequentExtension(db, Effective(minCount), Elems(prefix), ItemsOf(dataset), x) ==> x in result
    decreases |ItemsOf(dataset)|, 1
  {
    var localSupport := GetSupport(dataset);
    var items := set a | a in localSupport && localSupport[a] >= minCount;
    var order := SortByCount(items, localSupport);
    result := frequent;
    for i := 0 to |order|
      invariant Progress(db, Effective(minCount), prefix, dataset, Elems(order[..i]), frequent, result)
    {
      var item := order[i];
      NextDistinct(order, i);
      assert item in items;
      ghost var before := result;
      result := MineItem(db, minCount, dataset, prefix, item, localSupport[item], result);
      ProgressStep(db, Effective(minCount), prefix, dataset, Elems(order[..i]), item, frequent, before, result);
    }
    assert order[..|order|] == order;
    FoundDone(db, Effective(minCount), prefix, dataset, localSupport, items, result);
  }

  /**
   * One iteration of the loop of `mine`, on `item` with its local count: records `prefix + [item]` and
   * recurses on the projection.
   */
  method MineItem(ghost db: DB, minCount: nat, dataset: DB, prefix: seq<int>, item: int, itemsetSupport: nat,
                  frequent: map<set<int>, nat>)
    returns (result: map<set<int>, nat>)
    requires Conditioned(db, prefix, dataset) && ItemsOf(dataset) !! Elems(prefix) && item in ItemsOf(dataset)
    requires itemsetSupport == Support(dataset, {item}) && minCount <= itemsetSupport
    requires Recorded(db, Effective(minCount), frequent)
    ensures Recorded(db, Effective(minCount), result) && Extends(frequent, result, Elems(prefix))
    ensures Elems(prefix) + {item} in result
    ensures forall x :: FrequentExtension(db, Effective(minCount), Elems(prefix) + {item}, ItemsOf(Project(dataset, item)), x) ==>
      x in result
    decreases |ItemsOf(dataset)|, 0
  {
    ItemFacts(db, minCount, prefix, dataset, item);
    var newPrefix := prefix + [item];
    RecordStep(db, Effective(minCount), Elems(prefix), frequent, Elems(newPrefix), itemsetSupport, frequent);
    result := frequent[Elems(newPrefix) := itemsetSupport];
    ghost var recorded := result;
    var projectedTransactions := Project(dataset, item);
    result := Mine(db, minCount, projectedTransactions, newPrefix, result);
    ExtendsTrans(frequent, recorded, result, Elems(prefix), Elems(newPrefix));
  }

  /**
   * `relim(transactions, fraction)` with the fraction `num / den`: the count threshold is
   * `ceil(num / den * |transactions|)`; returns a map from itemsets to their true supports holding
   * exactly the itemsets that meet the threshold, or that occur at all when the threshold is zero.
   */
  method RunRelim(transactions: DB, num: nat, den: Pos) returns (frequentItemsets: map<set<int>, nat>)
    ensures Recorded(transactions, Effective(CeilRatio(|transactions|, num, den)), frequentItemsets)
    ensures forall x :: x != {} && x <= ItemsOf(transactions) && Effective(CeilRatio(|transactions|, num, den)) <= Support(transactions, x) ==>
      x in frequentItemsets
  {
    var totalTransactions := |transactions|;
    var minSupportCount := CeilRatio(totalTransactions, num, den);
    var support := GetSupport(transactions);
    RootConditioned(transactions);
    assert Elems([]) == {};
    frequentItemsets := Mine(transactions, minSupportCount, transactions, [], map[]);
  }
}
