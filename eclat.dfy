/**
 * ECLAT: depth-first mining over vertical tid-sets.  The `items` dictionary of
 * the source (item -> tid-set, in insertion order) is a list of entries; the
 * shared `frequent_itemsets` list that `eclat` appends to is modelled by
 * returning the patterns one call appends, in order.
 */
module Eclat {
  import opened Mining

  /** One entry of the `items` dictionary: an item and the tids it covers under the current prefix. */
  datatype Entry = Entry(item: int, tids: set<nat>)

  /** The keys of the dictionary. */
  function Keys(items: seq<Entry>): (r: set<int>)
    ensures |items| > 0 ==> items[|items| - 1].item in r
  {
    if |items| == 0 then {} else Keys(items[..|items| - 1]) + {items[|items| - 1].item}
  }

  /** A key is present exactly when some entry carries it. */
  lemma {:induction false} KeysMember(items: seq<Entry>, b: int)
    ensures b in Keys(items) <==> exists i :: 0 <= i < |items| && items[i].item == b
  {
    if |items| > 0 {
      var n := |items| - 1;
      KeysMember(items[..n], b);
      if exists i :: 0 <= i < n && items[..n][i].item == b {
        var i :| 0 <= i < n && items[..n][i].item == b;
        assert items[i].item == b;
      }
      if exists i :: 0 <= i < |items| && items[i].item == b {
        var i :| 0 <= i < |items| && items[i].item == b;
        if i < n { assert items[..n][i].item == b; }
      }
    }
  }

  lemma KeysPrefix(items: seq<Entry>, n: nat)
    requires n < |items|
    ensures Keys(items[..n + 1]) == Keys(items[..n]) + {items[n].item}
  {
    assert items[..n + 1][..n] == items[..n];
  }

  /**
   * The dictionary invariant: keys are distinct and outside the prefix, and each tid-set is exactly
   * the tid-set of the prefix extended by that key.
   */
  ghost predicate Extends(db: DB, prefix: set<int>, items: seq<Entry>)
  {
    && (forall i, j :: 0 <= i < j < |items| ==> items[i].item != items[j].item)
    && (forall i :: 0 <= i < |items| ==>
          items[i].item !in prefix && items[i].tids == TidSet(db, prefix + {items[i].item}))
  }

  /** Popping the entry at position `n` of a prefix of the dictionary. */
  lemma PopEntry(db: DB, p: set<int>, items: seq<Entry>, n: nat)
    requires Extends(db, p, items) && n < |items|
    ensures Keys(items[..n + 1]) == Keys(items[..n]) + {items[n].item}
    ensures items[n].item !in Keys(items[..n]) && items[n].item !in p
    ensures items[n].tids == TidSet(db, p + {items[n].item})
    ensures Extends(db, p, items[..n])
  {
    KeysPrefix(items, n);
    KeysMember(items[..n], items[n].item);
  }

  /** Distinct keys: the dictionary has as many keys as entries. */
  lemma {:induction false} ExtendsCount(db: DB, p: set<int>, items: seq<Entry>)
    requires Extends(db, p, items)
    ensures |Keys(items)| == |items|
  {
    if |items| > 0 {
      var n := |items| - 1;
      PopEntry(db, p, items, n);
      ExtendsCount(db, p, items[..n]);
      assert items[..n + 1] == items;
    }
  }

  /** Adding an entry of a new key keeps the invariant. */
  lemma ExtendsSnoc(db: DB, p: set<int>, items: seq<Entry>, e: Entry)
    requires Extends(db, p, items) && e.item !in Keys(items)
    requires e.item !in p && e.tids == TidSet(db, p + {e.item})
    ensures Extends(db, p, items + [e]) && Keys(items + [e]) == Keys(items) + {e.item}
  {
    assert (items + [e])[..|items|] == items;
    forall i | 0 <= i < |items| ensures items[i].item != e.item {
      KeysMember(items, e.item);
    }
  }

  /** What the scan of `Extensions` has established after the first `k` entries of `rest`. */
  ghost predicate Scanned(db: DB, p: set<int>, rest: seq<Entry>, k: nat, minsup: nat, newItems: seq<Entry>)
    requires k <= |rest|
  {
    && |newItems| <= k
    && Extends(db, p, newItems)
    && Keys(newItems) <= Keys(rest[..k])
    && (forall b :: b in Keys(rest[..k]) && minsup <= Support(db, p + {b}) ==> b in Keys(newItems))
    && (forall b :: b in Keys(newItems) ==> minsup <= Support(db, p + {b}))
  }

  /** What entry `k` of `rest` contributes to the scan. */
  lemma ScanFacts(db: DB, prefix: set<int>, item: int, tids: set<nat>, rest: seq<Entry>, k: nat)
    requires Extends(db, prefix, rest) && item !in prefix && item !in Keys(rest)
    requires tids == TidSet(db, prefix + {item}) && k < |rest|
    ensures Keys(rest[..k + 1]) == Keys(rest[..k]) + {rest[k].item}
    ensures rest[k].item !in Keys(rest[..k]) && rest[k].item !in prefix + {item}
    ensures tids * rest[k].tids == TidSet(db, prefix + {item} + {rest[k].item})
    ensures |tids * rest[k].tids| == Support(db, prefix + {item} + {rest[k].item})
  {
    var p := prefix + {item};
    PopEntry(db, prefix, rest, k);
    var b := rest[k].item;
    KeysMember(rest, b);
    TidSetOfUnion(db, prefix + {item}, prefix + {b});
    assert (prefix + {item}) + (prefix + {b}) == p + {b};
    SupportIsTidSetSize(db, p + {b});
  }

  /** Entry `k` reaches `minsup` under the extended prefix and is kept. */
  lemma ScanKeep(db: DB, p: set<int>, rest: seq<Entry>, k: nat, minsup: nat, newItems: seq<Entry>, e: Entry)
    requires k < |rest| && Scanned(db, p, rest, k, minsup, newItems)
    requires e.item == rest[k].item && Keys(rest[..k + 1]) == Keys(rest[..k]) + {e.item}
    requires e.item !in Keys(rest[..k]) && e.item !in p
    requires e.tids == TidSet(db, p + {e.item}) && minsup <= Support(db, p + {e.item})
    ensures Scanned(db, p, rest, k + 1, minsup, newItems + [e])
  {
    ExtendsSnoc(db, p, newItems, e);
  }

  /** Entry `k` misses `minsup` under the extended prefix and is dropped. */
  lemma ScanSkip(db: DB, p: set<int>, rest: seq<Entry>, k: nat, minsup: nat, newItems: seq<Entry>)
    requires k < |rest| && Scanned(db, p, rest, k, minsup, newItems)
    requires Keys(rest[..k + 1]) == Keys(rest[..k]) + {rest[k].item}
    requires Support(db, p + {rest[k].item}) < minsup
    ensures Scanned(db, p, rest, k + 1, minsup, newItems)
  {
  }

  /**
   * The children of `item`: every later entry whose intersection with `tids` keeps at least
   * `minsup` transactions, with that intersection as its tid-set.
   */
  method Extensions(ghost db: DB, ghost prefix: set<int>, item: int, tids: set<nat>,
                    rest: seq<Entry>, minsup: nat) returns (newItems: seq<Entry>)
    requires Extends(db, prefix, rest)
    requires item !in prefix && item !in Keys(rest)
    requires tids == TidSet(db, prefix + {item})
    ensures |newItems| <= |rest|
    ensures Extends(db, prefix + {item}, newItems)
    ensures Keys(newItems) <= Keys(rest)
    ensures forall b :: b in Keys(rest) && minsup <= Support(db, prefix + {item} + {b}) ==> b in Keys(newItems)
    ensures forall b :: b in Keys(newItems) ==> minsup <= Support(db, prefix + {item} + {b})
  {
    newItems := [];
    for k := 0 to |rest|
      invariant Scanned(db, prefix + {item}, rest, k, minsup, newItems)
    {
      ScanFacts(db, prefix, item, tids, rest, k);
      var intersection := tids * rest[k].tids;
      if |intersection| >= minsup {
        ScanKeep(db, prefix + {item}, rest, k, minsup, newItems, Entry(rest[k].item, intersection));
        newItems := newItems + [Entry(rest[k].item, intersection)];
      } else {
        ScanSkip(db, prefix + {item}, rest, k, minsup, newItems);
      }
    }
    assert rest[..|rest|] == rest;
  }

  /** The patterns of one branch (`item` and everything mined below it) all contain `a`. */
  lemma BranchFacts(db: DB, minsup: nat, p: set<int>, a: int, restKeys: set<int>, newKeys: set<int>,
                    head: Pattern, sub: seq<Pattern>)
    requires a !in p && a !in restKeys && newKeys <= restKeys
    requires Elems(head.items) == p + {a} && Reports(db, minsup, head)
    requires AllReport(db, minsup, sub) && DistinctItemsets(sub) && Within(sub, p + {a}, newKeys)
    requires forall x :: FrequentExtension(db, minsup, p + {a}, newKeys, x) ==> Listed(sub, x)
    requires forall b :: b in restKeys && minsup <= Support(db, p + {a} + {b}) ==> b in newKeys
    ensures AllReport(db, minsup, [head] + sub)
    ensures DistinctItemsets([head] + sub)
    ensures forall k :: 0 <= k < |[head] + sub| ==>
      a in Elems(([head] + sub)[k].items) && p < Elems(([head] + sub)[k].items) <= p + {a} + restKeys
    ensures forall x :: a in x && FrequentExtension(db, minsup, p, {a} + restKeys, x) ==> Listed([head] + sub, x)
  {
    DistinctAppend([head], sub);
    AllReportAppend(db, minsup, [head], sub);
    forall x | a in x && FrequentExtension(db, minsup, p, {a} + restKeys, x) ensures Listed([head] + sub, x) {
      if x == p + {a} {
        assert ([head] + sub)[0] == head;
      } else {
        forall b | b in x - (p + {a}) ensures b in newKeys {
          SupportAntimonotone(db, p + {a} + {b}, x);
        }
        assert FrequentExtension(db, minsup, p + {a}, newKeys, x);
        ListedRight([head], sub, x);
      }
    }
  }

  /** Patterns that meet an already-popped key differ from patterns that avoid every popped key. */
  lemma Separated(found: seq<Pattern>, mine: seq<Pattern>, popped: set<int>, s: set<int>)
    requires forall k :: 0 <= k < |found| ==> Elems(found[k].items) * popped != {}
    requires forall k :: 0 <= k < |mine| ==> Elems(mine[k].items) <= s
    requires s !! popped
    ensures forall j, k :: 0 <= j < |found| && 0 <= k < |mine| ==> Elems(found[j].items) != Elems(mine[k].items)
  {
    forall j, k | 0 <= j < |found| && 0 <= k < |mine| ensures Elems(found[j].items) != Elems(mine[k].items) {
      assert Elems(mine[k].items) * popped == {};
    }
  }

  /** The loop invariant of `eclat`, for the keys popped so far. */
  ghost predicate Mined(db: DB, minsup: nat, p: set<int>, keys: set<int>, popped: set<int>, found: seq<Pattern>)
  {
    && AllReport(db, minsup, found)
    && DistinctItemsets(found)
    && Within(found, p, keys)
    && (forall k :: 0 <= k < |found| ==> Elems(found[k].items) * popped != {})
    && (forall x :: FrequentExtension(db, minsup, p, keys, x) && x * popped != {} ==> Listed(found, x))
  }

  /** The loop invariant of `eclat` after popping `a` and appending its branch `mine`. */
  lemma PopStep(db: DB, minsup: nat, p: set<int>, keys: set<int>, popped: set<int>, a: int, restKeys: set<int>,
                found: seq<Pattern>, mine: seq<Pattern>)
    requires keys == restKeys + {a} + popped && a !in popped && a !in restKeys && restKeys !! popped
    requires p !! popped && a !in p
    requires Mined(db, minsup, p, keys, popped, found)
    requires AllReport(db, minsup, mine) && DistinctItemsets(mine)
    requires forall k :: 0 <= k < |mine| ==>
      a in Elems(mine[k].items) && p < Elems(mine[k].items) <= p + {a} + restKeys
    requires forall x :: a in x && FrequentExtension(db, minsup, p, {a} + restKeys, x) ==> Listed(mine, x)
    ensures Mined(db, minsup, p, keys, popped + {a}, found + mine)
  {
    Separated(found, mine, popped, p + {a} + restKeys);
    DistinctAppend(found, mine);
    AllReportAppend(db, minsup, found, mine);
    var c := found + mine;
    assert p + {a} + restKeys <= p + keys;
    forall k | 0 <= k < |c| ensures Elems(c[k].items) * (popped + {a}) != {} && p < Elems(c[k].items) <= p + keys {
      if k < |found| {
        assert c[k] == found[k];
      } else {
        assert c[k] == mine[k - |found|];
        assert a in Elems(c[k].items) * (popped + {a});
      }
    }
    forall x | FrequentExtension(db, minsup, p, keys, x) && x * (popped + {a}) != {} ensures Listed(c, x) {
      if x * popped != {} {
        ListedLeft(found, mine, x);
      } else {
        assert a in x;
        ListedRight(found, mine, x);
      }
    }
  }

  /** The loop invariant of `eclat` after popping an infrequent `a`: no frequent itemset contains it. */
  lemma SkipStep(db: DB, minsup: nat, p: set<int>, keys: set<int>, popped: set<int>, a: int, found: seq<Pattern>)
    requires Support(db, p + {a}) < minsup
    requires Mined(db, minsup, p, keys, popped, found)
    ensures Mined(db, minsup, p, keys, popped + {a}, found)
  {
    forall k | 0 <= k < |found| ensures Elems(found[k].items) * (popped + {a}) != {} {
      assert Elems(found[k].items) * popped <= Elems(found[k].items) * (popped + {a});
    }
    forall x | FrequentExtension(db, minsup, p, keys, x) && x * (popped + {a}) != {} ensures Listed(found, x) {
      if x * popped == {} {
        assert a in x;
        SupportAntimonotone(db, p + {a}, x);
      }
    }
  }

  /** Once every key is popped, every frequent extension has been listed. */
  lemma AllPopped(db: DB, minsup: nat, p: set<int>, keys: set<int>, found: seq<Pattern>)
    requires Mined(db, minsup, p, keys, keys, found)
    ensures forall x :: FrequentExtension(db, minsup, p, keys, x) ==> Listed(found, x)
  {
    forall x | FrequentExtension(db, minsup, p, keys, x) ensures Listed(found, x) {
      ProperHasNew(p, x);
      var b :| b in x && b !in p;
      assert b in x * keys;
    }
  }

  /**
   * `eclat(prefix, items, ...)`: pops the last entry while the dictionary is non-empty, reports it
   * when its tid-set is large enough, and recurses on its frequent extensions among the entries
   * still present.  Returns the patterns appended to `frequent_itemsets`, in order.
   */
  method Eclat(ghost db: DB, prefix: seq<int>, items: seq<Entry>, minsup: nat) returns (found: seq<Pattern>)
    requires Extends(db, Elems(prefix), items)
    ensures AllReport(db, minsup, found)
    ensures Within(found, Elems(prefix), Keys(items))
    ensures DistinctItemsets(found)
    ensures forall x :: FrequentExtension(db, minsup, Elems(prefix), Keys(items), x) ==> Listed(found, x)
    decreases |items|
  {
    ghost var p := Elems(prefix);
    ghost var keys := Keys(items);
    found := [];
    var n := |items|;
    ghost var popped: set<int> := {};
    assert items[..n] == items;
    while n > 0
      invariant n <= |items|
      invariant keys == Keys(items[..n]) + popped && Keys(items[..n]) !! popped && p !! popped
      invariant Mined(db, minsup, p, keys, popped, found)
    {
      n := n - 1;
      var entry := items[n];
      PopEntry(db, p, items, n);
      var rest := items[..n];
      var a := entry.item;
      assert keys == Keys(rest) + (popped + {a}) && Keys(rest) !! (popped + {a});
      var itemset := prefix + [a];
      assert Elems(itemset) == p + {a};
      var support := |entry.tids|;
      SupportIsTidSetSize(db, p + {a});
      if support >= minsup {
        var newItems := Extensions(db, p, a, entry.tids, rest, minsup);
        var sub := Eclat(db, itemset, newItems, minsup);
        var head := Pattern(itemset, support);
        BranchFacts(db, minsup, p, a, Keys(rest), Keys(newItems), head, sub);
        PopStep(db, minsup, p, keys, popped, a, Keys(rest), found, [head] + sub);
        found := found + ([head] + sub);
      } else {
        SkipStep(db, minsup, p, keys, popped, a, found);
      }
      popped := popped + {a};
    }
    AllPopped(db, minsup, p, keys, found);
  }

  /**
   * The inner loop's invariant: the items of transaction `t` handled so far (those not in `rest`) have
   * their tid-set over `after`, every other item still has its tid-set over `before`.
   */
  ghost predicate Partial(before: DB, after: DB, t: set<int>, m: map<int, set<nat>>, rest: set<int>)
  {
    && rest <= t
    && m.Keys == ItemsOf(before) + (t - rest)
    && (forall a :: a in m && a in t - rest ==> m[a] == TidSet(after, {a}))
    && (forall a :: a in m && a !in t - rest ==> m[a] == TidSet(before, {a}))
  }

  /** Handling one more item of transaction `index` keeps `Partial`. */
  lemma AddItemStep(db: DB, index: nat, m: map<int, set<nat>>, rest: set<int>, item: int, m': map<int, set<nat>>)
    requires index < |db| && item in rest
    requires Partial(db[..index], db[..index + 1], db[index], m, rest)
    requires m' == m[item := if item in m then m[item] + {index} else {index}]
    ensures Partial(db[..index], db[..index + 1], db[index], m', rest - {item})
  {
    TidSetSnoc(db, index, {item});
    if item !in m {
      TidSetOutsideItems(db[..index], item);
    }
  }

  /** The inner loop of the scan: adds transaction `index` to the tid-set of each of its items. */
  method AddTransaction(db: DB, index: nat, itemTransactions: map<int, set<nat>>) returns (m: map<int, set<nat>>)
    requires index < |db|
    requires itemTransactions.Keys == ItemsOf(db[..index])
    requires forall a :: a in itemTransactions ==> itemTransactions[a] == TidSet(db[..index], {a})
    ensures m.Keys == ItemsOf(db[..index + 1])
    ensures forall a :: a in m ==> m[a] == TidSet(db[..index + 1], {a})
  {
    m := itemTransactions;
    var rest := db[index];
    while rest != {}
      invariant Partial(db[..index], db[..index + 1], db[index], m, rest)
      decreases rest
    {
      NonEmpty(rest);
      var item :| item in rest;
      ghost var m0 := m;
      if item in m {
        m := m[item := m[item] + {index}];
      } else {
        m := m[item := {index}];
      }
      AddItemStep(db, index, m0, rest, item, m);
      rest := rest - {item};
    }
    assert db[..index + 1][..index] == db[..index];
  }

  /**
   * The vertical representation built by `run_eclat`: every item of the database with the indices
   * of the transactions that contain it.
   */
  method ItemTidSets(db: DB) returns (itemTransactions: map<int, set<nat>>)
    ensures itemTransactions.Keys == ItemsOf(db)
    ensures forall a :: a in itemTransactions ==> itemTransactions[a] == TidSet(db, {a})
  {
    itemTransactions := map[];
    for index := 0 to |db|
      invariant itemTransactions.Keys == ItemsOf(db[..index])
      invariant forall a :: a in itemTransactions ==> itemTransactions[a] == TidSet(db[..index], {a})
    {
      itemTransactions := AddTransaction(db, index, itemTransactions);
    }
    assert db[..|db|] == db;
  }

  /** One iteration of the loop of `FrequentEntries`: the item is kept exactly when it meets the threshold. */
  lemma FrequentStep(db: DB, itemTransactions: map<int, set<nat>>, minsup: nat, keys: set<int>, items: seq<Entry>,
                     item: int)
    requires forall a :: a in itemTransactions ==> itemTransactions[a] == TidSet(db, {a})
    requires keys <= itemTransactions.Keys && item in keys && Extends(db, {}, items)
    requires forall a :: a in Keys(items) <==> a in itemTransactions.Keys - keys && minsup <= |itemTransactions[a]|
    ensures var items' := if |itemTransactions[item]| >= minsup then items + [Entry(item, itemTransactions[item])] else items;
      && Extends(db, {}, items')
      && forall a :: a in Keys(items') <==> a in itemTransactions.Keys - (keys - {item}) && minsup <= |itemTransactions[a]|
  {
    if |itemTransactions[item]| >= minsup {
      assert {} + {item} == {item};
      ExtendsSnoc(db, {}, items, Entry(item, itemTransactions[item]));
    }
  }

  /**
   * The dictionary comprehension of `run_eclat`: the items whose tid-set reaches `minsup`, in the
   * dictionary's iteration order (any order).
   */
  method FrequentEntries(db: DB, itemTransactions: map<int, set<nat>>, minsup: nat) returns (items: seq<Entry>)
    requires forall a :: a in itemTransactions ==> itemTransactions[a] == TidSet(db, {a})
    ensures Extends(db, {}, items)
    ensures forall a :: a in Keys(items) <==> a in itemTransactions && minsup <= Support(db, {a})
  {
    items := [];
    var keys := itemTransactions.Keys;
    while keys != {}
      invariant keys <= itemTransactions.Keys
      invariant Extends(db, {}, items)
      invariant forall a :: a in Keys(items) <==> a in itemTransactions.Keys - keys && minsup <= |itemTransactions[a]|
      decreases keys
    {
      NonEmpty(keys);
      var item :| item in keys;
      FrequentStep(db, itemTransactions, minsup, keys, items, item);
      if |itemTransactions[item]| >= minsup {
        items := items + [Entry(item, itemTransactions[item])];
      }
      keys := keys - {item};
    }
    forall a | a in itemTransactions ensures minsup <= |itemTransactions[a]| <==> minsup <= Support(db, {a}) {
      SupportIsTidSetSize(db, {a});
    }
  }

  /**
   * `run_eclat` without the printing: the threshold is `ceil(|db| * num / den)`; builds each item's
   * tid-set, keeps the items meeting the threshold, and mines from the empty prefix.  Every reported
   * pattern is frequent with its true support, no itemset is reported twice, and every frequent
   * itemset is reported.
   */
  method RunEclat(db: DB, num: nat, den: nat) returns (minsup: nat, frequent: seq<Pattern>)
    requires den > 0
    ensures minsup == CeilRatio(|db|, num, den)
    ensures AllReport(db, minsup, frequent)
    ensures DistinctItemsets(frequent)
    ensures forall k :: 0 <= k < |frequent| ==> {} != Elems(frequent[k].items) <= ItemsOf(db)
    ensures forall x :: x != {} && x <= ItemsOf(db) && minsup <= Support(db, x) ==> Listed(frequent, x)
    ensures |db| == 0 ==> frequent == []
  {
    minsup := CeilRatio(|db|, num, den);
    var itemTransactions := ItemTidSets(db);
    var items := FrequentEntries(db, itemTransactions, minsup);
    assert Elems([]) == {};
    frequent := Eclat(db, [], items, minsup);
    forall x | x != {} && x <= ItemsOf(db) && minsup <= Support(db, x)
      ensures FrequentExtension(db, minsup, {}, Keys(items), x)
    {
      forall a | a in x ensures a in Keys(items) {
        SupportAntimonotone(db, {a}, x);
      }
    }
    assert Keys(items) <= ItemsOf(db) by {
      forall a | a in Keys(items) ensures a in ItemsOf(db) {
        assert a in itemTransactions.Keys;
      }
    }
    if |db| == 0 {
      assert Keys(items) == {};
      WithinNothing(frequent, {});
    }
  }
}
