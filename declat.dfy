/**
 * dECLAT as written: depth-first tid-set intersection (no diffsets), extending
 * an item only by larger items of the same dictionary, recording into a table
 * of ten levels indexed by itemset length.
 */
module Declat {
  import opened Mining
  import opened Eclat
  import opened Search

  /** The patterns of `h` with exactly `l` items, in order. */
  ghost function OfLength(h: seq<Pattern>, l: nat): (r: seq<Pattern>)
    ensures |r| <= |h|
  {
    if |h| == 0 then []
    else OfLength(h[..|h| - 1], l) + (if |h[|h| - 1].items| == l then [h[|h| - 1]] else [])
  }

  /** The ten levels after adding the patterns of `h` in order, each to the level of its length. */
  ghost function Table(h: seq<Pattern>): (r: seq<seq<Pattern>>)
    ensures |r| == 10
  {
    if |h| == 0 then seq(10, _ => [])
    else
      var t := Table(h[..|h| - 1]);
      var e := h[|h| - 1];
      if |e.items| < 10 then t[|e.items| := t[|e.items|] + [e]] else t
  }

  /** Level `l` of the table is the subsequence of `h` of the patterns of length `l`. */
  lemma {:induction false} TableLevel(h: seq<Pattern>, l: nat)
    requires l < 10
    ensures Table(h)[l] == OfLength(h, l)
  {
    if |h| > 0 {
      TableLevel(h[..|h| - 1], l);
    }
  }

  /** `FrequentItemsets`: `levels[l]` lists the itemsets of length `l`, in the order they were added. */
  class FrequentItemsets {
    const levels: array<seq<Pattern>>
    /** Every pattern added so far, in order. */
    ghost var history: seq<Pattern>

    ghost predicate Valid()
      reads this, levels
    {
      && levels.Length == 10
      && (forall k :: 0 <= k < |history| ==> |history[k].items| < 10)
      && levels[..] == Table(history)
    }

    /** Each level lists the added patterns of its length, in the order they were added. */
    lemma Levels()
      requires Valid()
      ensures forall l :: 0 <= l < 10 ==> levels[l] == OfLength(history, l)
    {
      forall l | 0 <= l < 10 ensures levels[l] == OfLength(history, l) {
        TableLevel(history, l);
        assert levels[l] == levels[..][l];
      }
    }

    constructor ()
      ensures Valid() && history == [] && fresh(levels)
      ensures forall l :: 0 <= l < 10 ==> levels[l] == []
    {
      levels := new seq<Pattern>[10](_ => []);
      history := [];
    }

    /**
     * `add_itemset`: appends the pair to the level of its length.  A length of 10 or more indexes past
     * the table; the source raises there, and the model reports it with `ok == false` and no change.
     */
    method AddItemset(itemset: seq<int>, support: nat) returns (ok: bool)
      requires Valid()
      modifies this, levels
      ensures Valid()
      ensures ok <==> |itemset| < 10
      ensures ok ==> history == old(history) + [Pattern(itemset, support)]
      ensures ok ==> levels[|itemset|] == old(levels[|itemset|]) + [Pattern(itemset, support)]
      ensures forall l :: 0 <= l < 10 && (!ok || l != |itemset|) ==> levels[l] == old(levels[l])
      ensures !ok ==> history == old(history)
    {
      var level := |itemset|;
      if level >= levels.Length {
        return false;
      }
      var entry := Pattern(itemset, support);
      levels[level] := levels[level] + [entry];
      history := history + [entry];
      assert history[..|history| - 1] == old(history);
      ok := true;
    }
  }

  /** Some frequent extension of `p` by `keys` has a strictly increasing listing of at least ten items. */
  ghost predicate TooLong(db: DB, minsup: nat, p: set<int>, keys: set<int>)
  {
    exists s: seq<int> :: 10 <= |s| && StrictlyIncreasing(s) && FrequentExtension(db, minsup, p, keys, Elems(s))
  }

  /** The invariant of the loop of `declat` after branching on the items of `done`. */
  ghost predicate Progress(db: DB, minsup: nat, prefix: seq<int>, keys: set<int>, done: set<int>, ok: bool,
                           found: seq<Pattern>)
  {
    && Declared(db, minsup, prefix, keys, done, found)
    && (ok ==> CompleteUpTo(db, minsup, Elems(prefix), keys, done, found))
    && (!ok ==> TooLong(db, minsup, Elems(prefix), keys))
  }

  /** What one branch of `declat`, on `item`, appends to the table: `mine`. */
  ghost predicate Branched(db: DB, minsup: nat, prefix: seq<int>, keys: set<int>, item: int, ok: bool,
                           mine: seq<Pattern>)
  {
    && Shaped(db, minsup, prefix, keys, item, mine)
    && (ok ==> CompleteFor(db, minsup, Elems(prefix), keys, item, mine))
    && (!ok ==> TooLong(db, minsup, Elems(prefix), keys))
  }

  /** What a call of `declat` guarantees about the patterns `found` it recorded. */
  ghost predicate Recorded(db: DB, minsup: nat, prefix: seq<int>, keys: set<int>, ok: bool, found: seq<Pattern>)
  {
    && Sound(db, minsup, prefix, keys, found)
    && (ok ==> Complete(db, minsup, Elems(prefix), keys, found))
    && (!ok ==> TooLong(db, minsup, Elems(prefix), keys))
  }

  /** What the scan building `new_items` has established after the first `k` entries. */
  ghost predicate Gathered(db: DB, p: set<int>, items: seq<Entry>, k: nat, item: int, minsup: nat,
                           newItems: seq<Entry>)
    requires k <= |items|
  {
    && Extends(db, p + {item}, newItems)
    && Keys(newItems) <= Keys(items[..k])
    && (forall b :: b in Keys(items[..k]) && item < b && minsup <= Support(db, p + {item} + {b}) ==> b in Keys(newItems))
    && (forall b :: b in Keys(newItems) ==> item < b && minsup <= Support(db, p + {item} + {b}))
  }

  /** What entry `k` contributes: its key and the tid-set of the extended prefix. */
  lemma GatherFacts(db: DB, p: set<int>, items: seq<Entry>, k: nat, item: int, tids: set<nat>)
    requires Extends(db, p, items) && k < |items| && item !in p
    requires tids == TidSet(db, p + {item})
    ensures Keys(items[..k + 1]) == Keys(items[..k]) + {items[k].item}
    ensures items[k].item !in Keys(items[..k]) && items[k].item !in p
    ensures tids * items[k].tids == TidSet(db, p + {item} + {items[k].item})
    ensures |tids * items[k].tids| == Support(db, p + {item} + {items[k].item})
  {
    var b := items[k].item;
    PopEntry(db, p, items, k);
    TidSetOfUnion(db, p + {item}, p + {b});
    assert (p + {item}) + (p + {b}) == p + {item} + {b};
    SupportIsTidSetSize(db, p + {item} + {b});
  }

  lemma GatherKeep(db: DB, p: set<int>, items: seq<Entry>, k: nat, item: int, minsup: nat,
                   newItems: seq<Entry>, e: Entry)
    requires k < |items| && Gathered(db, p, items, k, item, minsup, newItems)
    requires e.item == items[k].item && item < e.item
    requires Keys(items[..k + 1]) == Keys(items[..k]) + {e.item} && e.item !in Keys(items[..k]) && e.item !in p
    requires e.tids == TidSet(db, p + {item} + {e.item}) && minsup <= Support(db, p + {item} + {e.item})
    ensures Gathered(db, p, items, k + 1, item, minsup, newItems + [e])
  {
    ExtendsSnoc(db, p + {item}, newItems, e);
  }

  lemma GatherSkip(db: DB, p: set<int>, items: seq<Entry>, k: nat, item: int, minsup: nat, newItems: seq<Entry>)
    requires k < |items| && Gathered(db, p, items, k, item, minsup, newItems)
    requires Keys(items[..k + 1]) == Keys(items[..k]) + {items[k].item}
    requires items[k].item <= item || Support(db, p + {item} + {items[k].item}) < minsup
    ensures Gathered(db, p, items, k + 1, item, minsup, newItems)
  {
  }

  /** At the end of the scan every entry has been considered; `item` itself is never kept. */
  lemma GatherDone(db: DB, p: set<int>, items: seq<Entry>, item: int, minsup: nat, newItems: seq<Entry>)
    requires Extends(db, p, items) && item in Keys(items)
    requires Gathered(db, p, items, |items|, item, minsup, newItems)
    ensures |newItems| < |items|
    ensures Extends(db, p + {item}, newItems)
    ensures forall b :: b in Keys(newItems) <==> b in Keys(items) && item < b && minsup <= Support(db, p + {item} + {b})
  {
    assert items[..|items|] == items;
    ExtendsCount(db, p, items);
    ExtendsCount(db, p + {item}, newItems);
    SubsetCard(Keys(newItems), Keys(items) - {item});
  }

  /**
   * The `new_items` dictionary of `declat`: every entry whose item is larger than `item` and whose
   * intersection with `tids` keeps at least `minsup` transactions.  It is built from the whole
   * dictionary, which the scan leaves unchanged.
   */
  method Children(ghost db: DB, ghost p: set<int>, item: int, tids: set<nat>, items: seq<Entry>, minsup: nat)
    returns (newItems: seq<Entry>)
    requires Extends(db, p, items) && item in Keys(items) && item !in p
    requires tids == TidSet(db, p + {item})
    ensures |newItems| < |items|
    ensures Extends(db, p + {item}, newItems)
    ensures forall b :: b in Keys(newItems) <==> b in Keys(items) && item < b && minsup <= Support(db, p + {item} + {b})
  {
    newItems := [];
    for k := 0 to |items|
      invariant Gathered(db, p, items, k, item, minsup, newItems)
    {
      GatherFacts(db, p, items, k, item, tids);
      var other := items[k].item;
      if other > item {
        var newTidSet := tids * items[k].tids;
        if |newTidSet| >= minsup {
          GatherKeep(db, p, items, k, item, minsup, newItems, Entry(other, newTidSet));
          newItems := newItems + [Entry(other, newTidSet)];
        } else {
          GatherSkip(db, p, items, k, item, minsup, newItems);
        }
      } else {
        GatherSkip(db, p, items, k, item, minsup, newItems);
      }
    }
    GatherDone(db, p, items, item, minsup, newItems);
  }

  /** A too-long frequent extension below `item` is a too-long frequent extension of the prefix. */
  lemma TooLongLift(db: DB, minsup: nat, p: set<int>, keys: set<int>, item: int, newKeys: set<int>)
    requires item in keys && item !in p && newKeys <= keys
    requires TooLong(db, minsup, p + {item}, newKeys)
    ensures TooLong(db, minsup, p, keys)
  {
    var s :| 10 <= |s| && StrictlyIncreasing(s) && FrequentExtension(db, minsup, p + {item}, newKeys, Elems(s));
    assert FrequentExtension(db, minsup, p, keys, Elems(s));
  }

  /** What one branch of `declat` appends: the recorded pattern and what the recursion below it recorded. */
  lemma BranchFacts(db: DB, minsup: nat, prefix: seq<int>, keys: set<int>, item: int, newKeys: set<int>,
                    head: Pattern, sub: seq<Pattern>, ok: bool)
    requires StrictlyIncreasing(prefix) && Above(prefix, keys) && item in keys
    requires head.items == prefix + [item] && Reports(db, minsup, head)
    requires forall b :: b in newKeys <==> b in keys && item < b && minsup <= Support(db, Elems(prefix) + {item} + {b})
    requires Recorded(db, minsup, prefix + [item], newKeys, ok, sub)
    ensures Branched(db, minsup, prefix, keys, item, ok, [head] + sub)
  {
    var p := Elems(prefix);
    assert Elems(prefix + [item]) == p + {item};
    forall b | b in newKeys ensures b in keys && item < b {
    }
    BranchShape(db, minsup, prefix, keys, item, newKeys, head, sub);
    if ok {
      BranchComplete(db, minsup, p, keys, item, newKeys, head, sub);
    } else {
      TooLongLift(db, minsup, p, keys, item, newKeys);
    }
  }

  /** The loop invariant of `declat` after the branch on `item` appended `mine`. */
  lemma BranchStep(db: DB, minsup: nat, prefix: seq<int>, keys: set<int>, done: set<int>, item: int,
                   found: seq<Pattern>, mine: seq<Pattern>, ok: bool)
    requires item !in done
    requires Progress(db, minsup, prefix, keys, done, true, found)
    requires Branched(db, minsup, prefix, keys, item, ok, mine)
    ensures Progress(db, minsup, prefix, keys, done + {item}, ok, found + mine)
  {
    if ok {
      ExploreStep(db, minsup, prefix, keys, done, item, found, mine);
    } else {
      DeclaredStep(db, minsup, prefix, keys, done, item, found, mine);
    }
  }

  /** The loop of `declat` ends with every key branched on, or where the source raises. */
  lemma Finish(db: DB, minsup: nat, prefix: seq<int>, keys: set<int>, done: set<int>, ok: bool, found: seq<Pattern>)
    requires Progress(db, minsup, prefix, keys, done, ok, found)
    requires ok ==> done == keys
    ensures Recorded(db, minsup, prefix, keys, ok, found)
  {
    if ok {
      ExploreDone(db, minsup, prefix, keys, found);
    }
  }

  /**
   * The rest of the loop body of `declat` once the itemset of entry `i` has been recorded as `head`:
   * builds `new_items` and recurses on it.  The ghost `sub` lists what the recursion recorded.
   */
  method Descend(ghost db: DB, prefix: seq<int>, items: seq<Entry>, i: nat, minsup: nat, fi: FrequentItemsets,
                 ghost head: Pattern) returns (ok: bool, ghost sub: seq<Pattern>)
    requires fi.Valid()
    requires Extends(db, Elems(prefix), items) && i < |items|
    requires StrictlyIncreasing(prefix) && Above(prefix, Keys(items))
    requires head.items == prefix + [items[i].item] && Reports(db, minsup, head)
    modifies fi, fi.levels
    ensures fi.Valid()
    ensures fi.history == old(fi.history) + sub
    ensures Branched(db, minsup, prefix, Keys(items), items[i].item, ok, [head] + sub)
    decreases |items|, 0
  {
    ghost var p := Elems(prefix);
    PopEntry(db, p, items, i);
    KeysMember(items, items[i].item);
    var item := items[i].item;
    var newItemset := prefix + [item];
    var newItems := Children(db, p, item, items[i].tids, items, minsup);
    AboveExtend(prefix, Keys(items), item, Keys(newItems));
    ok, sub := Declat(db, newItemset, newItems, minsup, fi);
    BranchFacts(db, minsup, prefix, Keys(items), item, Keys(newItems), head, sub, ok);
  }

  /**
   * One iteration of the loop of `declat`, on the entry at position `i`: records the extended prefix
   * when its tid-set is large enough and recurses on the larger items that stay frequent with it.
   * The ghost `mine` lists what the iteration appended to the table; `ok` is false when a recorded
   * itemset would need an eleventh level, where the source raises.
   */
  method DeclatEntry(ghost db: DB, prefix: seq<int>, items: seq<Entry>, i: nat, minsup: nat, fi: FrequentItemsets)
    returns (ok: bool, ghost mine: seq<Pattern>)
    requires fi.Valid()
    requires Extends(db, Elems(prefix), items) && i < |items|
    requires StrictlyIncreasing(prefix) && Above(prefix, Keys(items))
    modifies fi, fi.levels
    ensures fi.Valid()
    ensures fi.history == old(fi.history) + mine
    ensures Branched(db, minsup, prefix, Keys(items), items[i].item, ok, mine)
    decreases |items|, 1
  {
    ghost var p := Elems(prefix);
    ghost var keys := Keys(items);
    PopEntry(db, p, items, i);
    KeysMember(items, items[i].item);
    var item := items[i].item;
    var tidSet := items[i].tids;
    var newItemset := prefix + [item];
    assert Elems(newItemset) == p + {item};
    var support := |tidSet|;
    SupportIsTidSetSize(db, p + {item});
    mine := [];
    ok := true;
    if support >= minsup {
      ok := fi.AddItemset(newItemset, support);
      ghost var head := Pattern(newItemset, support);
      if !ok {
        assert StrictlyIncreasing(newItemset);
        assert FrequentExtension(db, minsup, p, keys, Elems(newItemset));
      } else {
        ghost var sub;
        ok, sub := Descend(db, prefix, items, i, minsup, fi, head);
        mine := [head] + sub;
        Regroup(old(fi.history), [head], sub);
      }
    } else {
      NoneBelow(db, minsup, p, keys, item);
    }
  }

  /**
   * `declat(prefix, items, ...)`: runs the loop body on each entry of a snapshot of `items`, in order,
   * stopping where the source raises.  The ghost `found` lists what this call appended to the table.
   */
  method Declat(ghost db: DB, prefix: seq<int>, items: seq<Entry>, minsup: nat, fi: FrequentItemsets)
    returns (ok: bool, ghost found: seq<Pattern>)
    requires fi.Valid()
    requires Extends(db, Elems(prefix), items)
    requires StrictlyIncreasing(prefix) && Above(prefix, Keys(items))
    modifies fi, fi.levels
    ensures fi.Valid()
    ensures fi.history == old(fi.history) + found
    ensures Recorded(db, minsup, prefix, Keys(items), ok, found)
    decreases |items|, 2
  {
    ghost var p := Elems(prefix);
    ghost var keys := Keys(items);
    ghost var h0 := fi.history;
    ok := true;
    found := [];
    ghost var done: set<int> := {};
    var i := 0;
    while i < |items| && ok
      invariant i <= |items| && done == Keys(items[..i])
      invariant fi.Valid() && fi.history == h0 + found
      invariant Progress(db, minsup, prefix, keys, done, ok, found)
    {
      PopEntry(db, p, items, i);
      var entryOk, mine := DeclatEntry(db, prefix, items, i, minsup, fi);
      BranchStep(db, minsup, prefix, keys, done, items[i].item, found, mine, entryOk);
      Regroup(h0, found, mine);
      found := found + mine;
      ok := entryOk;
      done := done + {items[i].item};
      i := i + 1;
    }
    if ok {
      assert items[..i] == items;
    }
    Finish(db, minsup, prefix, keys, done, ok, found);
  }

  /** The guarantees of `declat` from the empty prefix, restated over the whole database. */
  lemma FromEmptyPrefix(db: DB, minsup: nat, items: seq<Entry>, itemTidSets: map<int, set<nat>>, ok: bool,
                        found: seq<Pattern>)
    requires itemTidSets.Keys == ItemsOf(db)
    requires forall a :: a in Keys(items) <==> a in itemTidSets && minsup <= Support(db, {a})
    requires Recorded(db, minsup, [], Keys(items), ok, found)
    ensures SoundAll(db, minsup, found)
    ensures ok ==> MinedAll(db, minsup, found)
    ensures !ok ==> exists s: seq<int> ::
      10 <= |s| && StrictlyIncreasing(s) && Elems(s) <= ItemsOf(db) && minsup <= Support(db, Elems(s))
  {
    assert Elems([]) == {};
    forall a | a in Keys(items) ensures a in ItemsOf(db) {
      assert a in itemTidSets.Keys;
    }
    if ok {
      FromEmpty(db, minsup, Keys(items), found);
    } else {
      SoundFromEmpty(db, minsup, Keys(items), found);
      var s :| 10 <= |s| && StrictlyIncreasing(s) && FrequentExtension(db, minsup, {}, Keys(items), Elems(s));
      assert Elems(s) <= ItemsOf(db);
    }
  }

  /**
   * `run_declat`: the threshold is `ceil(|db| * num / den)`; builds each item's tid-set, keeps the
   * items meeting the threshold and mines from the empty prefix into a fresh table.  When no itemset
   * needs an eleventh level, the table holds every frequent itemset exactly once, each as a strictly
   * increasing list with its true support.
   */
  method RunDeclat(db: DB, num: nat, den: nat) returns (minsup: nat, ok: bool, fi: FrequentItemsets)
    requires den > 0
    ensures minsup == CeilRatio(|db|, num, den)
    ensures fi.Valid()
    ensures forall l :: 0 <= l < 10 ==> fi.levels[l] == OfLength(fi.history, l)
    ensures SoundAll(db, minsup, fi.history)
    ensures ok ==> MinedAll(db, minsup, fi.history)
    ensures !ok ==> exists s: seq<int> ::
      10 <= |s| && StrictlyIncreasing(s) && Elems(s) <= ItemsOf(db) && minsup <= Support(db, Elems(s))
  {
    minsup := CeilRatio(|db|, num, den);
    var itemTidSets := ItemTidSets(db);
    var items := FrequentEntries(db, itemTidSets, minsup);
    fi := new FrequentItemsets();
    assert Elems([]) == {};
    ghost var found;
    ok, found := Declat(db, [], items, minsup, fi);
    assert fi.history == found;
    FromEmptyPrefix(db, minsup, items, itemTidSets, ok, fi.history);
    fi.Levels();
  }
}
