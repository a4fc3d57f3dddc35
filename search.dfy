/**
 * The depth-first enumeration shared by dECLAT, H-Mine, LCMFreq, FIN and DFIN.
 * Each of them walks a `prefix` (a strictly increasing list of items) and a set
 * of candidate `keys` above it, branches on each key `a` in turn, records
 * `prefix + [a]` when it is frequent and recurses below it on larger keys.
 * The patterns reached through the branch on `a` are exactly the frequent
 * extensions of the prefix whose least new item is `a`; these predicates and
 * lemmas carry that argument once for all five miners.
 */
module Search {
  import opened Mining

  lemma Regroup(a: seq<Pattern>, b: seq<Pattern>, c: seq<Pattern>)
    ensures (a + b) + c == a + (b + c)
  {
  }

  /**
   * Sound output below `prefix`: true supports meeting the threshold, no itemset twice, every
   * itemset a proper extension of the prefix by `keys`, listed in increasing order.
   */
  ghost predicate Sound(db: DB, minsup: nat, prefix: seq<int>, keys: set<int>, found: seq<Pattern>)
  {
    && AllReport(db, minsup, found) && DistinctItemsets(found) && Within(found, Elems(prefix), keys)
    && (forall k :: 0 <= k < |found| ==> StrictlyIncreasing(found[k].items))
  }

  /** Every frequent extension of `p` by `keys` is listed in `found`. */
  ghost predicate Complete(db: DB, minsup: nat, p: set<int>, keys: set<int>, found: seq<Pattern>)
  {
    forall x :: FrequentExtension(db, minsup, p, keys, x) ==> Listed(found, x)
  }

  /** `x` was reached from `p` through the branch on one of the items of `done`. */
  ghost predicate BranchedIn(x: set<int>, p: set<int>, done: set<int>)
  {
    exists a :: a in done && LeastNew(x, p, a)
  }

  /** Sound output of the branches on the items of `done`, each itemset reached through one of them. */
  ghost predicate Declared(db: DB, minsup: nat, prefix: seq<int>, keys: set<int>, done: set<int>, found: seq<Pattern>)
  {
    && Sound(db, minsup, prefix, keys, found)
    && (forall k :: 0 <= k < |found| ==> BranchedIn(Elems(found[k].items), Elems(prefix), done))
  }

  /** Every frequent extension whose least new item is in `done` is listed. */
  ghost predicate CompleteUpTo(db: DB, minsup: nat, p: set<int>, keys: set<int>, done: set<int>, found: seq<Pattern>)
  {
    forall x, a :: FrequentExtension(db, minsup, p, keys, x) && a in done && LeastNew(x, p, a) ==> Listed(found, x)
  }

  /** The invariant of a depth-first loop after branching on the items of `done`. */
  ghost predicate Explored(db: DB, minsup: nat, prefix: seq<int>, keys: set<int>, done: set<int>, found: seq<Pattern>)
  {
    Declared(db, minsup, prefix, keys, done, found) && CompleteUpTo(db, minsup, Elems(prefix), keys, done, found)
  }

  /** What the branch on `item` may append: sound output whose least new item is `item`. */
  ghost predicate Shaped(db: DB, minsup: nat, prefix: seq<int>, keys: set<int>, item: int, mine: seq<Pattern>)
  {
    && Sound(db, minsup, prefix, keys, mine)
    && (forall k :: 0 <= k < |mine| ==> LeastNew(Elems(mine[k].items), Elems(prefix), item))
  }

  /** Every frequent extension whose least new item is `item` is listed in `mine`. */
  ghost predicate CompleteFor(db: DB, minsup: nat, p: set<int>, keys: set<int>, item: int, mine: seq<Pattern>)
  {
    forall x :: FrequentExtension(db, minsup, p, keys, x) && LeastNew(x, p, item) ==> Listed(mine, x)
  }

  /** The branch on `item` appended exactly the frequent extensions whose least new item is `item`. */
  ghost predicate Branch(db: DB, minsup: nat, prefix: seq<int>, keys: set<int>, item: int, mine: seq<Pattern>)
  {
    Shaped(db, minsup, prefix, keys, item, mine) && CompleteFor(db, minsup, Elems(prefix), keys, item, mine)
  }

  /** Extending a prefix by one of its keys keeps it increasing and below the larger keys. */
  lemma AboveExtend(prefix: seq<int>, keys: set<int>, item: int, newKeys: set<int>)
    requires StrictlyIncreasing(prefix) && Above(prefix, keys) && item in keys
    requires forall b :: b in newKeys ==> b in keys && item < b
    ensures StrictlyIncreasing(prefix + [item]) && Above(prefix + [item], newKeys)
    ensures Elems(prefix + [item]) == Elems(prefix) + {item}
  {
  }

  /** The shape of one branch: the new pattern followed by everything recorded below it. */
  lemma BranchShape(db: DB, minsup: nat, prefix: seq<int>, keys: set<int>, item: int, newKeys: set<int>,
                    head: Pattern, sub: seq<Pattern>)
    requires StrictlyIncreasing(prefix) && Above(prefix, keys) && item in keys
    requires head.items == prefix + [item] && Reports(db, minsup, head)
    requires forall b :: b in newKeys ==> b in keys && item < b
    requires Sound(db, minsup, prefix + [item], newKeys, sub)
    ensures Shaped(db, minsup, prefix, keys, item, [head] + sub)
  {
    var p := Elems(prefix);
    var q := Elems(prefix + [item]);
    assert q == p + {item};
    var mine := [head] + sub;
    DistinctAppend([head], sub);
    AllReportAppend(db, minsup, [head], sub);
    forall k | 0 <= k < |mine|
      ensures StrictlyIncreasing(mine[k].items) && LeastNew(Elems(mine[k].items), p, item)
      ensures p < Elems(mine[k].items) <= p + keys
    {
      if k == 0 {
        assert mine[k] == head;
      } else {
        assert mine[k] == sub[k - 1];
        assert q < Elems(mine[k].items) <= q + newKeys;
      }
    }
  }

  /**
   * Completeness of one branch: every frequent extension branched on `item` is listed, provided
   * the keys below `item` keep every larger key that stays frequent together with it.
   */
  lemma BranchComplete(db: DB, minsup: nat, p: set<int>, keys: set<int>, item: int, newKeys: set<int>,
                       head: Pattern, sub: seq<Pattern>)
    requires Elems(head.items) == p + {item}
    requires forall b :: b in keys && item < b && minsup <= Support(db, p + {item} + {b}) ==> b in newKeys
    requires Complete(db, minsup, p + {item}, newKeys, sub)
    ensures CompleteFor(db, minsup, p, keys, item, [head] + sub)
  {
    var q := p + {item};
    forall x | FrequentExtension(db, minsup, p, keys, x) && LeastNew(x, p, item) ensures Listed([head] + sub, x) {
      if x == q {
        assert ([head] + sub)[0] == head;
      } else {
        forall b | b in x - q ensures b in newKeys {
          SupportAntimonotone(db, q + {b}, x);
        }
        assert FrequentExtension(db, minsup, q, newKeys, x);
        ListedRight([head], sub, x);
      }
    }
  }

  /**
   * A branch that records `prefix + [item]` and recurses on keys that keep every larger key still
   * frequent with it lists exactly the frequent extensions whose least new item is `item`.
   */
  lemma BranchOf(db: DB, minsup: nat, prefix: seq<int>, keys: set<int>, item: int, newKeys: set<int>,
                 head: Pattern, sub: seq<Pattern>)
    requires StrictlyIncreasing(prefix) && Above(prefix, keys) && item in keys
    requires head.items == prefix + [item] && Reports(db, minsup, head)
    requires forall b :: b in newKeys ==> b in keys && item < b
    requires forall b :: b in keys && item < b && minsup <= Support(db, Elems(prefix) + {item} + {b}) ==> b in newKeys
    requires Sound(db, minsup, prefix + [item], newKeys, sub)
    requires Complete(db, minsup, Elems(prefix + [item]), newKeys, sub)
    ensures Branch(db, minsup, prefix, keys, item, [head] + sub)
  {
    assert Elems(prefix + [item]) == Elems(prefix) + {item};
    BranchShape(db, minsup, prefix, keys, item, newKeys, head, sub);
    BranchComplete(db, minsup, Elems(prefix), keys, item, newKeys, head, sub);
  }

  /** An infrequent `item` is the least new item of no frequent extension. */
  lemma NoneBelow(db: DB, minsup: nat, p: set<int>, keys: set<int>, item: int)
    requires Support(db, p + {item}) < minsup
    ensures forall x :: FrequentExtension(db, minsup, p, keys, x) ==> !LeastNew(x, p, item)
  {
    forall x | FrequentExtension(db, minsup, p, keys, x) && LeastNew(x, p, item) ensures false {
      SupportAntimonotone(db, p + {item}, x);
    }
  }

  /** Skipping an infrequent `item` is a complete branch. */
  lemma BranchNone(db: DB, minsup: nat, prefix: seq<int>, keys: set<int>, item: int)
    requires Support(db, Elems(prefix) + {item}) < minsup
    ensures Branch(db, minsup, prefix, keys, item, [])
  {
    NoneBelow(db, minsup, Elems(prefix), keys, item);
  }

  /** Nothing sound lies below an infrequent prefix. */
  lemma {:induction false} NothingAbove(db: DB, minsup: nat, prefix: seq<int>, keys: set<int>, found: seq<Pattern>)
    requires Sound(db, minsup, prefix, keys, found)
    requires Support(db, Elems(prefix)) < minsup
    ensures found == []
  {
    if found != [] {
      SupportAntimonotone(db, Elems(prefix), Elems(found[0].items));
    }
  }

  /** Two itemsets with different least new items differ. */
  lemma BranchesDiffer(found: seq<Pattern>, mine: seq<Pattern>, p: set<int>, done: set<int>, item: int)
    requires item !in done
    requires forall k :: 0 <= k < |found| ==> BranchedIn(Elems(found[k].items), p, done)
    requires forall k :: 0 <= k < |mine| ==> LeastNew(Elems(mine[k].items), p, item)
    ensures forall j, k :: 0 <= j < |found| && 0 <= k < |mine| ==> Elems(found[j].items) != Elems(mine[k].items)
  {
    forall j, k | 0 <= j < |found| && 0 <= k < |mine| ensures Elems(found[j].items) != Elems(mine[k].items) {
      var a :| a in done && LeastNew(Elems(found[j].items), p, a);
      assert a != item;
    }
  }

  /** Appending a sound branch on a new item keeps the output sound and distinct. */
  lemma DeclaredStep(db: DB, minsup: nat, prefix: seq<int>, keys: set<int>, done: set<int>, item: int,
                     found: seq<Pattern>, mine: seq<Pattern>)
    requires item !in done
    requires Declared(db, minsup, prefix, keys, done, found)
    requires Shaped(db, minsup, prefix, keys, item, mine)
    ensures Declared(db, minsup, prefix, keys, done + {item}, found + mine)
  {
    var p := Elems(prefix);
    BranchesDiffer(found, mine, p, done, item);
    DistinctAppend(found, mine);
    AllReportAppend(db, minsup, found, mine);
    var c := found + mine;
    forall k | 0 <= k < |c|
      ensures StrictlyIncreasing(c[k].items) && BranchedIn(Elems(c[k].items), p, done + {item})
      ensures p < Elems(c[k].items) <= p + keys
    {
      if k < |found| {
        assert c[k] == found[k];
        var a :| a in done && LeastNew(Elems(c[k].items), p, a);
      } else {
        assert c[k] == mine[k - |found|];
        assert LeastNew(Elems(c[k].items), p, item);
      }
    }
  }

  /** The loop invariant of a depth-first miner after the branch on `item` appended `mine`. */
  lemma ExploreStep(db: DB, minsup: nat, prefix: seq<int>, keys: set<int>, done: set<int>, item: int,
                    found: seq<Pattern>, mine: seq<Pattern>)
    requires item !in done
    requires Explored(db, minsup, prefix, keys, done, found)
    requires Branch(db, minsup, prefix, keys, item, mine)
    ensures Explored(db, minsup, prefix, keys, done + {item}, found + mine)
  {
    var p := Elems(prefix);
    DeclaredStep(db, minsup, prefix, keys, done, item, found, mine);
    forall x, a | FrequentExtension(db, minsup, p, keys, x) && a in done + {item} && LeastNew(x, p, a)
      ensures Listed(found + mine, x)
    {
      if a in done {
        ListedLeft(found, mine, x);
      } else {
        ListedRight(found, mine, x);
      }
    }
  }

  /** Once every key has been branched on, the output is sound and complete. */
  lemma ExploreDone(db: DB, minsup: nat, prefix: seq<int>, keys: set<int>, found: seq<Pattern>)
    requires Explored(db, minsup, prefix, keys, keys, found)
    ensures Sound(db, minsup, prefix, keys, found) && Complete(db, minsup, Elems(prefix), keys, found)
  {
    forall x | FrequentExtension(db, minsup, Elems(prefix), keys, x) ensures Listed(found, x) {
      var a := LeastNewExists(Elems(prefix), x);
    }
  }

  /**
   * Branching only on some keys is complete when every key left out is infrequent together with
   * the prefix.
   */
  lemma ExploreFiltered(db: DB, minsup: nat, prefix: seq<int>, keys: set<int>, done: set<int>, found: seq<Pattern>)
    requires Explored(db, minsup, prefix, keys, done, found)
    requires forall a :: a in keys && a !in done ==> Support(db, Elems(prefix) + {a}) < minsup
    ensures Sound(db, minsup, prefix, keys, found) && Complete(db, minsup, Elems(prefix), keys, found)
  {
    var p := Elems(prefix);
    forall x | FrequentExtension(db, minsup, p, keys, x) ensures Listed(found, x) {
      var a := LeastNewExists(p, x);
      if a !in done {
        SupportAntimonotone(db, p + {a}, x);
      }
    }
  }

  /**
   * What every run of a miner guarantees: every reported itemset is a non-empty set of items of the
   * database, listed in increasing order, with its true support meeting the threshold, and no
   * itemset is reported twice.
   */
  ghost predicate SoundAll(db: DB, minsup: nat, found: seq<Pattern>)
  {
    && AllReport(db, minsup, found) && DistinctItemsets(found)
    && (forall k :: 0 <= k < |found| ==> StrictlyIncreasing(found[k].items) && {} != Elems(found[k].items) <= ItemsOf(db))
  }

  /** Sound output that reports every frequent non-empty itemset: exactly the frequent itemsets, once each. */
  ghost predicate MinedAll(db: DB, minsup: nat, found: seq<Pattern>)
  {
    && SoundAll(db, minsup, found)
    && (forall x :: x != {} && x <= ItemsOf(db) && minsup <= Support(db, x) ==> Listed(found, x))
  }

  /** Sound output from the empty prefix over keys drawn from the database is sound for the database. */
  lemma SoundFromEmpty(db: DB, minsup: nat, keys: set<int>, found: seq<Pattern>)
    requires keys <= ItemsOf(db)
    requires Sound(db, minsup, [], keys, found)
    ensures SoundAll(db, minsup, found)
  {
    assert Elems([]) == {};
  }

  /**
   * Sound and complete output from the empty prefix over keys that hold every frequent item is
   * exactly the frequent itemsets of the database.
   */
  lemma FromEmpty(db: DB, minsup: nat, keys: set<int>, found: seq<Pattern>)
    requires keys <= ItemsOf(db)
    requires forall a :: a in ItemsOf(db) && minsup <= Support(db, {a}) ==> a in keys
    requires Sound(db, minsup, [], keys, found) && Complete(db, minsup, {}, keys, found)
    ensures MinedAll(db, minsup, found)
  {
    SoundFromEmpty(db, minsup, keys, found);
    assert Elems([]) == {};
    forall x | x != {} && x <= ItemsOf(db) && minsup <= Support(db, x)
      ensures FrequentExtension(db, minsup, {}, keys, x)
    {
      forall a | a in x ensures a in keys {
        SupportAntimonotone(db, {a}, x);
      }
    }
  }
}
