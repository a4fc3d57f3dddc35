/**
 * What `mine_patterns` promises about the patterns it returns.  The header
 * items are visited one by one; the branch of item `i` reports `[i]` and then
 * `[i] + sub` for every pattern `sub` mined from the conditional tree of `i`,
 * whose items all come before `i` in the tree order.  So every itemset is
 * reported by the branch of its last item in that order, and by no other.
 */
module PrePostPatterns {
  import opened Mining
  import opened PrePostArena

  /** `a` is the last item of `x` in the tree order: the item whose branch reports `x`. */
  ghost predicate Topped(itemCounts: map<int, nat>, x: set<int>, a: int)
  {
    a in x && Before(itemCounts, x - {a}, a)
  }

  /** Some item of `done` is the last item of `x`. */
  ghost predicate TopIn(itemCounts: map<int, nat>, x: set<int>, done: set<int>)
  {
    exists a :: a in done && Topped(itemCounts, x, a)
  }

  /** An itemset has at most one last item. */
  lemma TopUnique(itemCounts: map<int, nat>, x: set<int>, a: int, b: int)
    requires Topped(itemCounts, x, a) && Topped(itemCounts, x, b)
    ensures a == b
  {
    assert a != b ==> b in x - {a} && a in x - {b};
  }

  /** A non-empty itemset has a last item. */
  lemma TopExists(itemCounts: map<int, nat>, x: set<int>) returns (a: int)
    requires x != {}
    ensures Topped(itemCounts, x, a)
  {
    a := KeyGreatest(x, itemCounts);
  }

  /**
   * The patterns report their true support, which meets the threshold; none lists an item twice, none
   * is empty, all draw their items from the database, and no itemset is reported twice.
   */
  ghost predicate PatternsSound(db: DB, minsup: nat, out: seq<Pattern>)
  {
    && AllReport(db, minsup, out)
    && DistinctItemsets(out)
    && forall k :: 0 <= k < |out| ==> Distinct(out[k].items) && {} != Elems(out[k].items) <= ItemsOf(db)
  }

  /** Every non-empty itemset of the database meeting the threshold is reported. */
  ghost predicate PatternsComplete(db: DB, minsup: nat, out: seq<Pattern>)
  {
    forall x :: x != {} && x <= ItemsOf(db) && minsup <= Support(db, x) ==> Listed(out, x)
  }

  /**
   * The branch of item `i` reports soundly, only itemsets whose last item is `i`, and every such
   * itemset meeting the threshold.
   */
  ghost predicate ItemBranch(db: DB, itemCounts: map<int, nat>, minsup: nat, i: int, mine: seq<Pattern>)
  {
    && PatternsSound(db, minsup, mine)
    && (forall k :: 0 <= k < |mine| ==> Topped(itemCounts, Elems(mine[k].items), i))
    && (forall x :: x <= ItemsOf(db) && Topped(itemCounts, x, i) && minsup <= Support(db, x) ==> Listed(mine, x))
  }

  /** The branches of the items of `done` together. */
  ghost predicate MinedUpTo(db: DB, itemCounts: map<int, nat>, minsup: nat, done: set<int>, out: seq<Pattern>)
  {
    && PatternsSound(db, minsup, out)
    && (forall k :: 0 <= k < |out| ==> TopIn(itemCounts, Elems(out[k].items), done))
    && (forall x, a :: a in done && x <= ItemsOf(db) && Topped(itemCounts, x, a) && minsup <= Support(db, x) ==>
          Listed(out, x))
  }

  lemma MinedFromNothing(db: DB, itemCounts: map<int, nat>, minsup: nat)
    ensures MinedUpTo(db, itemCounts, minsup, {}, [])
  {
  }

  /** Appending the branch of a new item to the branches before it. */
  lemma MinedStep(db: DB, itemCounts: map<int, nat>, minsup: nat, done: set<int>, i: int, out: seq<Pattern>, mine: seq<Pattern>)
    requires MinedUpTo(db, itemCounts, minsup, done, out) && ItemBranch(db, itemCounts, minsup, i, mine) && i !in done
    ensures MinedUpTo(db, itemCounts, minsup, done + {i}, out + mine)
  {
    var all := out + mine;
    AllReportAppend(db, minsup, out, mine);
    forall j, k | 0 <= j < |out| && 0 <= k < |mine| ensures Elems(out[j].items) != Elems(mine[k].items) {
      assert TopIn(itemCounts, Elems(out[j].items), done);
      var a :| a in done && Topped(itemCounts, Elems(out[j].items), a);
      if Elems(out[j].items) == Elems(mine[k].items) {
        TopUnique(itemCounts, Elems(out[j].items), a, i);
      }
    }
    DistinctAppend(out, mine);
    forall k | 0 <= k < |all| ensures Distinct(all[k].items) && {} != Elems(all[k].items) <= ItemsOf(db)
      && TopIn(itemCounts, Elems(all[k].items), done + {i})
    {
      if k < |out| {
        assert all[k] == out[k];
        assert TopIn(itemCounts, Elems(out[k].items), done);
        var a :| a in done && Topped(itemCounts, Elems(out[k].items), a);
      } else {
        assert all[k] == mine[k - |out|];
      }
    }
    forall x, a | a in done + {i} && x <= ItemsOf(db) && Topped(itemCounts, x, a) && minsup <= Support(db, x)
      ensures Listed(all, x)
    {
      if a in done {
        ListedLeft(out, mine, x);
      } else {
        ListedRight(out, mine, x);
      }
    }
  }

  /** Once every item of the database has had its branch, the patterns are exactly the frequent itemsets. */
  lemma MinedAllItems(db: DB, itemCounts: map<int, nat>, minsup: nat, out: seq<Pattern>)
    requires MinedUpTo(db, itemCounts, minsup, ItemsOf(db), out)
    ensures PatternsSound(db, minsup, out)
    ensures PatternsComplete(db, minsup, out)
  {
    forall x | x != {} && x <= ItemsOf(db) && minsup <= Support(db, x) ensures Listed(out, x) {
      var a := TopExists(itemCounts, x);
    }
  }

  /** An item below the threshold has an empty branch: no itemset holding it meets the threshold. */
  lemma BranchNone(db: DB, itemCounts: map<int, nat>, minsup: nat, i: int)
    requires Support(db, {i}) < minsup
    ensures ItemBranch(db, itemCounts, minsup, i, [])
  {
    forall x | Topped(itemCounts, x, i) ensures Support(db, x) < minsup {
      SupportAntimonotone(db, {i}, x);
    }
  }

  /** `[(pattern + sub_pattern, sub_support) for ...]` with `pattern == [i]`. */
  function Prefixed(i: int, sub: seq<Pattern>): seq<Pattern>
  {
    seq(|sub|, k requires 0 <= k < |sub| => Pattern([i] + sub[k].items, sub[k].support))
  }

  lemma PrefixedSnoc(i: int, sub: seq<Pattern>, p: Pattern)
    ensures Prefixed(i, sub + [p]) == Prefixed(i, sub) + [Pattern([i] + p.items, p.support)]
  {
  }

  /**
   * A database conditioned on `i`: counting a set of items before `i` in it counts the set with `i` in
   * the database, and its items are items of the database that come before `i`.
   */
  ghost predicate ConditionalOf(db: DB, itemCounts: map<int, nat>, i: int, cdb: DB)
  {
    && (forall y :: Before(itemCounts, y, i) ==> Support(cdb, y) == Support(db, y + {i}))
    && (forall b :: b in ItemsOf(cdb) ==> b in ItemsOf(db) && KeyLess(itemCounts, b, i))
  }

  /** A list without repetitions stays so with an item in front that it does not hold. */
  lemma ConsDistinct(i: int, s: seq<int>)
    requires Distinct(s) && i !in Elems(s)
    ensures Distinct([i] + s) && Elems([i] + s) == {i} + Elems(s)
  {
    var items := [i] + s;
    forall j, k | 0 <= j < k < |items| ensures items[j] != items[k] {
      assert items[k] == s[k - 1];
      if j > 0 {
        assert items[j] == s[j - 1];
      } else {
        assert items[k] in Elems(s);
      }
    }
  }

  /** Prefixing `i` to a pattern of the conditional database gives a pattern of the database ending in `i`. */
  lemma PrefixOne(db: DB, itemCounts: map<int, nat>, minsup: nat, i: int, cdb: DB, p: Pattern)
    requires i in ItemsOf(db) && ConditionalOf(db, itemCounts, i, cdb)
    requires Reports(cdb, minsup, p) && Distinct(p.items) && {} != Elems(p.items) <= ItemsOf(cdb)
    ensures var q := Pattern([i] + p.items, p.support);
      Reports(db, minsup, q) && Distinct(q.items) && {} != Elems(q.items) <= ItemsOf(db)
      && Topped(itemCounts, Elems(q.items), i) && Elems(q.items) == {i} + Elems(p.items) && i !in Elems(p.items)
  {
    var y := Elems(p.items);
    assert Before(itemCounts, y, i) by {
      forall b | b in y ensures KeyLess(itemCounts, b, i) {
        assert b in ItemsOf(cdb);
      }
    }
    assert i !in y;
    ConsDistinct(i, p.items);
    assert Support(cdb, y) == Support(db, y + {i});
    assert {i} + y == y + {i};
    assert ({i} + y) - {i} == y;
  }

  /** What `PrefixOne` says about each entry of a branch's output, the single item `[i]` included. */
  lemma PrefixedAt(db: DB, itemCounts: map<int, nat>, minsup: nat, i: int, cdb: DB, sub: seq<Pattern>, k: nat)
    requires i in ItemsOf(db) && minsup <= Support(db, {i})
    requires ConditionalOf(db, itemCounts, i, cdb) && PatternsSound(cdb, minsup, sub)
    requires k < |sub| + 1
    ensures var q := ([Pattern([i], Support(db, {i}))] + Prefixed(i, sub))[k];
      Reports(db, minsup, q) && Distinct(q.items) && {} != Elems(q.items) <= ItemsOf(db)
      && Topped(itemCounts, Elems(q.items), i)
      && Elems(q.items) - {i} == (if k == 0 then {} else Elems(sub[k - 1].items))
  {
    var mine := [Pattern([i], Support(db, {i}))] + Prefixed(i, sub);
    if k == 0 {
      assert Elems([i]) == {i};
    } else {
      var p := sub[k - 1];
      assert mine[k] == Pattern([i] + p.items, p.support);
      PrefixOne(db, itemCounts, minsup, i, cdb, p);
    }
  }

  /**
   * The output of the branch on `i`: `[i]` followed by `i` prefixed to each pattern of the conditional
   * database is sound for the whole database, and every itemset in it has `i` as its last item.
   */
  lemma PrefixedSound(db: DB, itemCounts: map<int, nat>, minsup: nat, i: int, cdb: DB, sub: seq<Pattern>)
    requires i in ItemsOf(db) && minsup <= Support(db, {i})
    requires ConditionalOf(db, itemCounts, i, cdb) && PatternsSound(cdb, minsup, sub)
    ensures PatternsSound(db, minsup, [Pattern([i], Support(db, {i}))] + Prefixed(i, sub))
    ensures forall k :: 0 <= k < |sub| + 1 ==>
      Topped(itemCounts, Elems(([Pattern([i], Support(db, {i}))] + Prefixed(i, sub))[k].items), i)
  {
    var mine := [Pattern([i], Support(db, {i}))] + Prefixed(i, sub);
    forall k | 0 <= k < |mine| ensures
      Reports(db, minsup, mine[k]) && Distinct(mine[k].items) && {} != Elems(mine[k].items) <= ItemsOf(db)
      && Topped(itemCounts, Elems(mine[k].items), i)
    {
      PrefixedAt(db, itemCounts, minsup, i, cdb, sub, k);
    }
    forall j, k | 0 <= j < k < |mine| ensures Elems(mine[j].items) != Elems(mine[k].items) {
      PrefixedAt(db, itemCounts, minsup, i, cdb, sub, j);
      PrefixedAt(db, itemCounts, minsup, i, cdb, sub, k);
      assert Elems(sub[k - 1].items) != {};
      if j > 0 {
        assert Elems(sub[j - 1].items) != Elems(sub[k - 1].items);
      }
    }
  }

  /** Without its last item `i`, a frequent itemset of more than one item is frequent in the conditional database of `i`. */
  lemma ConditionalPart(db: DB, itemCounts: map<int, nat>, minsup: nat, i: int, cdb: DB, x: set<int>)
    requires 1 <= minsup && ConditionalOf(db, itemCounts, i, cdb)
    requires Topped(itemCounts, x, i) && minsup <= Support(db, x) && x != {i}
    ensures x - {i} != {} && x - {i} <= ItemsOf(cdb) && minsup <= Support(cdb, x - {i})
  {
    var y := x - {i};
    assert y + {i} == x;
    assert y != {};
    forall b | b in y ensures b in ItemsOf(cdb) {
      SupportAntimonotone(cdb, {b}, y);
      Occurs(cdb, b);
    }
  }

  /** The pattern of `i` prefixed to the pattern of `y` is the pattern of `y + {i}`. */
  lemma PrefixedItems(i: int, sub: seq<Pattern>, k: nat)
    requires k < |sub|
    ensures Elems(Prefixed(i, sub)[k].items) == {i} + Elems(sub[k].items)
  {
    assert Prefixed(i, sub)[k].items == [i] + sub[k].items;
  }

  lemma PrefixedComplete(db: DB, itemCounts: map<int, nat>, minsup: nat, i: int, cdb: DB, sub: seq<Pattern>, x: set<int>)
    requires 1 <= minsup && minsup <= Support(db, {i})
    requires ConditionalOf(db, itemCounts, i, cdb) && PatternsComplete(cdb, minsup, sub)
    requires Topped(itemCounts, x, i) && minsup <= Support(db, x)
    ensures Listed([Pattern([i], Support(db, {i}))] + Prefixed(i, sub), x)
  {
    var mine := [Pattern([i], Support(db, {i}))] + Prefixed(i, sub);
    if x == {i} {
      assert Elems(mine[0].items) == x by {
        assert Elems([i]) == {i};
      }
    } else {
      ConditionalPart(db, itemCounts, minsup, i, cdb, x);
      var k :| 0 <= k < |sub| && Elems(sub[k].items) == x - {i};
      PrefixedItems(i, sub, k);
      assert {i} + (x - {i}) == x;
      assert mine[k + 1] == Prefixed(i, sub)[k];
    }
  }

  /**
   * The branch of a frequent item: its own pattern, then `i` prefixed to every pattern of its
   * conditional database.  It reports exactly the frequent itemsets ending in `i`.
   */
  lemma BranchOf(db: DB, itemCounts: map<int, nat>, minsup: nat, i: int, cdb: DB, sub: seq<Pattern>)
    requires i in ItemsOf(db) && 1 <= minsup <= Support(db, {i})
    requires ConditionalOf(db, itemCounts, i, cdb)
    requires PatternsSound(cdb, minsup, sub) && PatternsComplete(cdb, minsup, sub)
    ensures ItemBranch(db, itemCounts, minsup, i, [Pattern([i], Support(db, {i}))] + Prefixed(i, sub))
  {
    PrefixedSound(db, itemCounts, minsup, i, cdb, sub);
    forall x | x <= ItemsOf(db) && Topped(itemCounts, x, i) && minsup <= Support(db, x)
      ensures Listed([Pattern([i], Support(db, {i}))] + Prefixed(i, sub), x)
    {
      PrefixedComplete(db, itemCounts, minsup, i, cdb, sub, x);
    }
  }
}
