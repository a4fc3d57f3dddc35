/**
 * AprioriClose: level-wise mining of the frequent itemsets over the items
 * 0..999 (a fixed table of 1000 counters), joining every pair of itemsets of
 * one level whose union is one item larger, then a global filter that keeps
 * an itemset unless another recorded itemset contains it with the same count.
 */
module AprioriClose {
  import opened Mining
  import Search

  /** The number of counters of `itemset_counts`: items are 0..999. */
  const Slots: nat := 1000

  /** `x` holds counter items only: the itemsets the counter table can hold. */
  ghost predicate InCounters(x: set<int>)
  {
    forall a :: a in x ==> 0 <= a < Slots
  }

  /** Distinct counter items are at most as many as the counters. */
  lemma CountersCard(x: set<int>, n: nat)
    requires forall a :: a in x ==> 0 <= a < n
    ensures |x| <= n
  {
    SubsetCard(x, Range(n));
  }

  /** The items `0 .. n - 1`. */
  function Range(n: nat): (r: set<int>)
    ensures forall a :: a in r <==> 0 <= a < n
    ensures |r| == n
  {
    if n == 0 then {}
    else
      var s := Range(n - 1);
      assert n - 1 !in s;
      s + {n - 1}
  }

  /** Every item of every transaction has a counter. */
  predicate InSlots(db: DB)
  {
    forall k, a :: 0 <= k < |db| && a in db[k] ==> 0 <= a < Slots
  }

  // ---------------------------------------------------------------------------
  // Itemset and Itemsets

  /**
   * `Itemset.__eq__`: two itemsets are equal when they hold the same items, in any order and with
   * any repetition, and the same transaction count.
   */
  predicate Same(a: Pattern, b: Pattern)
  {
    Elems(a.items) == Elems(b.items) && a.support == b.support
  }

  /** `__eq__` is an equivalence, and it is equality on strictly increasing item lists. */
  lemma SameEquivalence(a: Pattern, b: Pattern, c: Pattern)
    ensures Same(a, a)
    ensures Same(a, b) ==> Same(b, a)
    ensures Same(a, b) && Same(b, c) ==> Same(a, c)
    ensures StrictlyIncreasing(a.items) && StrictlyIncreasing(b.items) ==> (Same(a, b) <==> a == b)
  {
    if StrictlyIncreasing(a.items) && StrictlyIncreasing(b.items) && Same(a, b) {
      IncreasingDetermined(a.items, b.items);
    }
  }

  /** `x in level`: Python's list membership, which compares with `__eq__`. */
  function Contains(level: seq<Pattern>, x: Pattern): (r: bool)
    ensures r <==> exists k :: 0 <= k < |level| && Same(level[k], x)
  {
    if |level| == 0 then false
    else
      var n := |level| - 1;
      assert forall k :: 0 <= k < n ==> level[k] == level[..n][k];
      Contains(level[..n], x) || Same(level[n], x)
  }

  /** All the itemsets of the levels, level by level. */
  function Flat(levels: seq<seq<Pattern>>): seq<Pattern>
  {
    if |levels| == 0 then [] else Flat(levels[..|levels| - 1]) + levels[|levels| - 1]
  }

  /** The levels grown with empty levels until there are at least `n`. */
  function Padded(levels: seq<seq<Pattern>>, n: nat): (r: seq<seq<Pattern>>)
    ensures |r| == if |levels| < n then n else |levels|
    ensures levels <= r
    ensures forall l :: |levels| <= l < |r| ==> r[l] == []
    decreases n - |levels|
  {
    if |levels| < n then Padded(levels + [[]], n) else levels
  }

  /** `add_itemset(itemset, k)` on `levels`: padded to `k + 1` levels, then `itemset` appended to level `k`. */
  function Added(levels: seq<seq<Pattern>>, k: nat, itemset: Pattern): (r: seq<seq<Pattern>>)
    ensures |r| == if |levels| < k + 1 then k + 1 else |levels|
  {
    var p := Padded(levels, k + 1);
    p[k := p[k] + [itemset]]
  }

  /** Empty levels add nothing. */
  lemma {:induction false} FlatPadded(levels: seq<seq<Pattern>>, n: nat)
    ensures Flat(Padded(levels, n)) == Flat(levels)
    decreases n - |levels|
  {
    if |levels| < n {
      var g := levels + [[]];
      assert g[..|g| - 1] == levels;
      assert Flat(g) == Flat(levels) + [];
      FlatPadded(g, n);
    }
  }

  /** Appending an itemset to level `k` adds it once to the whole collection. */
  lemma {:induction false} FlatUpdate(levels: seq<seq<Pattern>>, k: nat, x: Pattern)
    requires k < |levels|
    ensures multiset(Flat(levels[k := levels[k] + [x]])) == multiset(Flat(levels)) + multiset{x}
  {
    var n := |levels| - 1;
    var u := levels[k := levels[k] + [x]];
    if k == n {
      assert u[..n] == levels[..n];
    } else {
      assert u[..n] == levels[..n][k := levels[..n][k] + [x]];
      FlatUpdate(levels[..n], k, x);
    }
  }

  /** `add_itemset` adds exactly the one itemset to the collection. */
  lemma AddedOnce(levels: seq<seq<Pattern>>, k: nat, x: Pattern)
    ensures multiset(Flat(Added(levels, k, x))) == multiset(Flat(levels)) + multiset{x}
  {
    FlatPadded(levels, k + 1);
    FlatUpdate(Padded(levels, k + 1), k, x);
  }

  /**
   * The levels after `add_itemset(itemset, k)`: at least `k + 1` of them, level `k` ends with the
   * itemset, and every other level is as before, or empty when it is new.
   */
  lemma AddedShape(levels: seq<seq<Pattern>>, k: nat, x: Pattern)
    ensures var r := Added(levels, k, x);
      && |r| == (if |levels| < k + 1 then k + 1 else |levels|)
      && r[k] == (if k < |levels| then levels[k] else []) + [x]
      && (forall l :: 0 <= l < |levels| && l != k ==> r[l] == levels[l])
      && (forall l :: |levels| <= l < |r| && l != k ==> r[l] == [])
  {
    var p := Padded(levels, k + 1);
    forall l | 0 <= l < |levels| ensures p[l] == levels[l] {
      assert levels[l] == p[..|levels|][l];
    }
  }

  /** Added to the last level, or beyond it, the itemset comes last. */
  lemma AddedLast(levels: seq<seq<Pattern>>, k: nat, x: Pattern)
    requires |levels| <= k + 1
    ensures Flat(Added(levels, k, x)) == Flat(levels) + [x]
  {
    var p := Padded(levels, k + 1);
    FlatPadded(levels, k + 1);
    LastLevel(p, k, x);
  }

  /** Appending to the last level appends to the collection. */
  lemma LastLevel(p: seq<seq<Pattern>>, k: nat, x: Pattern)
    requires |p| == k + 1
    ensures Flat(p[k := p[k] + [x]]) == Flat(p) + [x]
  {
    assert p == p[..k] + [p[k]];
    assert p[k := p[k] + [x]] == p[..k] + [p[k] + [x]];
    FlatSnoc(p[..k], p[k]);
    FlatSnoc(p[..k], p[k] + [x]);
  }

  lemma FlatSnoc(levels: seq<seq<Pattern>>, level: seq<Pattern>)
    ensures Flat(levels + [level]) == Flat(levels) + level
  {
    assert (levels + [level])[..|levels|] == levels;
  }

  /** Flattening one more level of a prefix. */
  lemma FlatPrefixSnoc(levels: seq<seq<Pattern>>, l: nat)
    requires l < |levels|
    ensures Flat(levels[..l + 1]) == Flat(levels[..l]) + levels[l]
  {
    assert levels[..l + 1] == levels[..l] + [levels[l]];
    FlatSnoc(levels[..l], levels[l]);
  }

  /** `Itemsets`: `levels[k]` lists the itemsets added at level `k`, in the order they were added. */
  class Itemsets {
    const name: string
    var levels: seq<seq<Pattern>>

    /** A new collection holds the empty level L0 only. */
    constructor (name: string)
      ensures this.name == name && levels == [[]]
    {
      this.name := name;
      levels := [[]];
    }

    /** `add_itemset(itemset, k)`: grows the levels to `k + 1`, then appends to level `k`. */
    method AddItemset(itemset: Pattern, k: nat)
      modifies this`levels
      ensures levels == Added(old(levels), k, itemset)
      ensures multiset(Flat(levels)) == multiset(Flat(old(levels))) + multiset{itemset}
    {
      while |levels| < k + 1
        invariant Padded(levels, k + 1) == Padded(old(levels), k + 1)
        decreases k + 1 - |levels|
      {
        levels := levels + [[]];
      }
      levels := levels[k := levels[k] + [itemset]];
      AddedOnce(old(levels), k, itemset);
    }

    /** `get_itemsets_count`: the sum of the level lengths, which is the size of the collection. */
    method GetItemsetsCount() returns (count: nat)
      ensures count == |Flat(levels)|
    {
      count := 0;
      for i := 0 to |levels|
        invariant count == |Flat(levels[..i])|
      {
        assert levels[..i + 1][..i] == levels[..i];
        count := count + |levels[i]|;
      }
      assert levels[..|levels|] == levels;
    }
  }

  // ---------------------------------------------------------------------------
  // The levels of the search

  /** `p` lists, in increasing order, `k` items that have counters, with its true count reaching the threshold. */
  ghost predicate Good(db: DB, minsup: nat, p: Pattern, k: nat)
  {
    && StrictlyIncreasing(p.items) && |p.items| == k && InCounters(Elems(p.items))
    && Reports(db, minsup, p)
  }

  /** Every entry of `level` is good at size `k`, and no two hold the same items. */
  ghost predicate LevelGood(db: DB, minsup: nat, level: seq<Pattern>, k: nat)
  {
    && (forall m :: 0 <= m < |level| ==> Good(db, minsup, level[m], k))
    && DistinctItemsets(level)
  }

  /** Every entry of `level` holds counter items only. */
  ghost predicate Bounded(level: seq<Pattern>)
  {
    forall m :: 0 <= m < |level| ==> InCounters(Elems(level[m].items))
  }

  /** `level` lists every frequent itemset of `k` items exactly once, with its count. */
  ghost predicate LevelExact(db: DB, minsup: nat, level: seq<Pattern>, k: nat)
  {
    && LevelGood(db, minsup, level, k)
    && (forall x {:trigger Listed(level, x)} :: InCounters(x) && |x| == k && minsup <= Support(db, x) ==> Listed(level, x))
  }

  /** `mined` lists every frequent itemset of 1 to `k` items exactly once, with its count. */
  ghost predicate MinedUpTo(db: DB, minsup: nat, mined: seq<Pattern>, k: nat)
  {
    && (forall m :: 0 <= m < |mined| ==> 1 <= |mined[m].items| <= k && Good(db, minsup, mined[m], |mined[m].items|))
    && DistinctItemsets(mined)
    && (forall x {:trigger Listed(mined, x)} :: InCounters(x) && 1 <= |x| <= k && minsup <= Support(db, x) ==> Listed(mined, x))
  }

  /** `mined` lists every non-empty frequent itemset exactly once, with its count. */
  ghost predicate Mined(db: DB, minsup: nat, mined: seq<Pattern>)
  {
    && (forall m :: 0 <= m < |mined| ==> 1 <= |mined[m].items| && Good(db, minsup, mined[m], |mined[m].items|))
    && DistinctItemsets(mined)
    && (forall x {:trigger Listed(mined, x)} :: InCounters(x) && x != {} && minsup <= Support(db, x) ==> Listed(mined, x))
  }

  /** Some non-empty itemset is frequent. */
  ghost predicate AnyFrequent(db: DB, minsup: nat)
  {
    exists x :: InCounters(x) && x != {} && minsup <= Support(db, x)
  }

  /** `x` is a frequent itemset of `n` items. */
  ghost predicate FrequentOfSize(db: DB, minsup: nat, x: set<int>, n: nat)
  {
    InCounters(x) && |x| == n && minsup <= Support(db, x)
  }

  /** The largest frequent itemsets have `n` items. */
  ghost predicate LongestFrequent(db: DB, minsup: nat, n: nat)
  {
    && (exists x :: FrequentOfSize(db, minsup, x, n))
    && (forall x :: InCounters(x) && |x| > n ==> Support(db, x) < minsup)
  }

  /** An itemset of `k` distinct counter items: `k` is at most the number of counters. */
  lemma LevelBound(db: DB, minsup: nat, level: seq<Pattern>, k: nat)
    requires LevelGood(db, minsup, level, k) && level != []
    ensures k <= Slots
  {
    var p := level[0];
    assert Good(db, minsup, p, k);
    DistinctCard(p.items);
    CountersCard(Elems(p.items), Slots);
  }

  /** A set with at least `k` elements has a subset of exactly `k`. */
  lemma {:induction false} SubsetOfSize(y: set<int>, k: nat) returns (x: set<int>)
    requires k <= |y|
    ensures x <= y && |x| == k
    decreases |y|
  {
    if |y| == k {
      x := y;
    } else {
      NonEmpty(y);
      var a :| a in y;
      x := SubsetOfSize(y - {a}, k);
    }
  }

  /** When no itemset of `k` items is frequent, no larger one is either. */
  lemma NoneLarger(db: DB, minsup: nat, k: nat)
    requires forall x :: InCounters(x) && |x| == k ==> Support(db, x) < minsup
    ensures forall y :: InCounters(y) && |y| >= k ==> Support(db, y) < minsup
  {
    forall y | InCounters(y) && |y| >= k ensures Support(db, y) < minsup {
      var x := SubsetOfSize(y, k);
      SupportAntimonotone(db, x, y);
    }
  }

  /** A set of one element is that element. */
  lemma Singleton(x: set<int>) returns (a: int)
    requires |x| == 1
    ensures x == {a}
  {
    NonEmpty(x);
    a :| a in x;
    assert |x - {a}| == 0;
    assert x - {a} == {};
  }

  /** Adding a level of `k + 1` items to the itemsets of 1 to `k` items. */
  lemma MinedStep(db: DB, minsup: nat, mined: seq<Pattern>, next: seq<Pattern>, k: nat)
    requires MinedUpTo(db, minsup, mined, k) && LevelExact(db, minsup, next, k + 1)
    ensures MinedUpTo(db, minsup, mined + next, k + 1)
  {
    var all := mined + next;
    forall m | 0 <= m < |all|
      ensures 1 <= |all[m].items| <= k + 1 && Good(db, minsup, all[m], |all[m].items|)
    {
      if m >= |mined| {
        assert all[m] == next[m - |mined|];
      }
    }
    forall j, m | 0 <= j < |mined| && 0 <= m < |next| ensures Elems(mined[j].items) != Elems(next[m].items) {
      assert Good(db, minsup, mined[j], |mined[j].items|) && Good(db, minsup, next[m], k + 1);
      DistinctCard(mined[j].items);
      DistinctCard(next[m].items);
    }
    DistinctAppend(mined, next);
    forall x | InCounters(x) && 1 <= |x| <= k + 1 && minsup <= Support(db, x) ensures Listed(all, x) {
      if |x| <= k {
        ListedLeft(mined, next, x);
      } else {
        ListedRight(mined, next, x);
      }
    }
  }

  /** The loop of the levels stops at an empty level of `k` items: every non-empty frequent itemset is listed. */
  lemma MinedAll(db: DB, minsup: nat, mined: seq<Pattern>, k: nat)
    requires MinedUpTo(db, minsup, mined, k) && LevelExact(db, minsup, [], k)
    ensures Mined(db, minsup, mined)
    ensures forall y :: InCounters(y) && |y| >= k ==> Support(db, y) < minsup
  {
    forall x | InCounters(x) && |x| == k ensures Support(db, x) < minsup {
      assert !Listed([], x);
    }
    NoneLarger(db, minsup, k);
  }

  // ---------------------------------------------------------------------------
  // Joining a level

  /** The items of two itemsets together. */
  function Union(a: Pattern, b: Pattern): set<int>
  {
    Elems(a.items) + Elems(b.items)
  }

  /** The pair `a`, `b` has been joined: their union, when it has `k + 1` items and is frequent, is listed. */
  ghost predicate Joined(db: DB, minsup: nat, next: seq<Pattern>, a: Pattern, b: Pattern, k: nat)
  {
    |Union(a, b)| == k + 1 && minsup <= Support(db, Union(a, b)) ==> Listed(next, Union(a, b))
  }

  /** Every pair of rows before `i` has been joined, and row `i` with the rows before `j`. */
  ghost predicate JoinedUpTo(db: DB, minsup: nat, level: seq<Pattern>, k: nat, next: seq<Pattern>, i: nat, j: nat)
  {
    && (forall i', j' {:trigger Joined(db, minsup, next, level[i'], level[j'], k)} ::
          0 <= i' < i && i' < j' < |level| ==> Joined(db, minsup, next, level[i'], level[j'], k))
    && (forall j' {:trigger Joined(db, minsup, next, level[i], level[j'], k)} ::
          i < j' < j && j' < |level| ==> Joined(db, minsup, next, level[i], level[j'], k))
  }

  /** The number of `j'` in `i + 1 .. j - 1` whose union with row `i` has `k + 1` items: the candidates of row `i`. */
  function RowCandidates(level: seq<Pattern>, k: nat, i: nat, j: nat): nat
    requires i < |level| && j <= |level|
  {
    if j <= i + 1 then 0 else RowCandidates(level, k, i, j - 1) + IsCandidate(level, k, i, j - 1)
  }

  /** 1 when rows `i` and `j` give a candidate of `k + 1` items, else 0. */
  function IsCandidate(level: seq<Pattern>, k: nat, i: nat, j: nat): nat
    requires i < |level| && j < |level|
  {
    if Distinct(level[i].items + level[j].items) == k + 1 then 1 else 0
  }

  /** The number of different items listed in `s`. */
  function Distinct(s: seq<int>): nat
  {
    if |s| == 0 then 0 else Distinct(s[..|s| - 1]) + (if s[|s| - 1] in s[..|s| - 1] then 0 else 1)
  }

  /** `Distinct` counts the itemset a list holds. */
  lemma {:induction false} DistinctElems(s: seq<int>)
    ensures Distinct(s) == |Elems(s)|
  {
    if |s| > 0 {
      var n := |s| - 1;
      DistinctElems(s[..n]);
      assert s == s[..n] + [s[n]];
      assert Elems(s) == Elems(s[..n]) + {s[n]};
      if s[n] in s[..n] {
        assert s[n] in Elems(s[..n]);
        assert Elems(s) == Elems(s[..n]);
      } else {
        assert s[n] !in Elems(s[..n]);
      }
    }
  }

  /** Rows `i` and `j` make a candidate exactly when their union has `k + 1` items. */
  lemma CandidateUnion(level: seq<Pattern>, k: nat, i: nat, j: nat)
    requires i < |level| && j < |level|
    ensures IsCandidate(level, k, i, j) == if |Union(level[i], level[j])| == k + 1 then 1 else 0
  {
    var s := level[i].items + level[j].items;
    DistinctElems(s);
    assert Elems(s) == Union(level[i], level[j]);
  }

  /** The candidates of the rows before `i`. */
  function Candidates(level: seq<Pattern>, k: nat, i: nat): nat
    requires i <= |level|
  {
    if i == 0 then 0 else Candidates(level, k, i - 1) + RowCandidates(level, k, i - 1, |level|)
  }

  /**
   * The candidates counted over the levels joined one after another, `levels[m]` holding itemsets of
   * `m + 1` items: the value `candidates_count` grows by in `run_algorithm`.
   */
  function CandidateTotal(levels: seq<seq<Pattern>>): nat
  {
    if |levels| == 0 then 0
    else
      var n := |levels| - 1;
      CandidateTotal(levels[..n]) + Candidates(levels[n], n + 1, |levels[n]|)
  }

  /** A listed itemset stays listed when the list grows. */
  lemma ListedGrow(a: seq<Pattern>, b: seq<Pattern>, x: set<int>)
    requires a <= b && Listed(a, x)
    ensures Listed(b, x)
  {
    var m :| 0 <= m < |a| && Elems(a[m].items) == x;
    assert b[m] == a[m];
  }

  /** Joined pairs stay joined when the next level grows. */
  lemma JoinedGrow(db: DB, minsup: nat, level: seq<Pattern>, k: nat, next: seq<Pattern>, next': seq<Pattern>,
                   i: nat, j: nat)
    requires next <= next' && JoinedUpTo(db, minsup, level, k, next, i, j)
    ensures JoinedUpTo(db, minsup, level, k, next', i, j)
  {
    forall i', j' | 0 <= i' < i && i' < j' < |level| ensures Joined(db, minsup, next', level[i'], level[j'], k) {
      assert Joined(db, minsup, next, level[i'], level[j'], k);
      if |Union(level[i'], level[j'])| == k + 1 && minsup <= Support(db, Union(level[i'], level[j'])) {
        ListedGrow(next, next', Union(level[i'], level[j']));
      }
    }
    forall j' | i < j' < j && j' < |level| ensures Joined(db, minsup, next', level[i], level[j'], k) {
      assert Joined(db, minsup, next, level[i], level[j'], k);
      if |Union(level[i], level[j'])| == k + 1 && minsup <= Support(db, Union(level[i], level[j'])) {
        ListedGrow(next, next', Union(level[i], level[j']));
      }
    }
  }

  /**
   * Joining every pair of a complete level of `k >= 1` items lists every frequent itemset of `k + 1`
   * items: two of its subsets of `k` items are rows of the level, and their union is the itemset.
   */
  lemma JoinComplete(db: DB, minsup: nat, level: seq<Pattern>, k: nat, next: seq<Pattern>)
    requires 1 <= k && LevelExact(db, minsup, level, k)
    requires JoinedUpTo(db, minsup, level, k, next, |level|, 0)
    ensures forall x :: InCounters(x) && |x| == k + 1 && minsup <= Support(db, x) ==> Listed(next, x)
  {
    forall x | InCounters(x) && |x| == k + 1 && minsup <= Support(db, x) ensures Listed(next, x) {
      JoinOne(db, minsup, level, k, next, x);
    }
  }

  lemma JoinOne(db: DB, minsup: nat, level: seq<Pattern>, k: nat, next: seq<Pattern>, x: set<int>)
    requires 1 <= k && LevelExact(db, minsup, level, k)
    requires JoinedUpTo(db, minsup, level, k, next, |level|, 0)
    requires InCounters(x) && |x| == k + 1 && minsup <= Support(db, x)
    ensures Listed(next, x)
  {
    var sa, sb := TwoSubsets(x);
    var ia := RowOf(db, minsup, level, k, x, sa);
    var ib := RowOf(db, minsup, level, k, x, sb);
    assert ia != ib;
    if ia < ib {
      JoinedPair(db, minsup, level, k, next, ia, ib, x);
    } else {
      JoinedPair(db, minsup, level, k, next, ib, ia, x);
    }
  }

  /** Two joined rows whose items make up a frequent `x` of `k + 1` items put `x` in the next level. */
  lemma JoinedPair(db: DB, minsup: nat, level: seq<Pattern>, k: nat, next: seq<Pattern>, i: nat, j: nat, x: set<int>)
    requires i < j < |level| && JoinedUpTo(db, minsup, level, k, next, |level|, 0)
    requires Elems(level[i].items) + Elems(level[j].items) == x && |x| == k + 1 && minsup <= Support(db, x)
    ensures Listed(next, x)
  {
    assert Joined(db, minsup, next, level[i], level[j], k);
  }

  /** A subset of `k` items of a frequent itemset is a row of a complete level of size `k`. */
  lemma RowOf(db: DB, minsup: nat, level: seq<Pattern>, k: nat, x: set<int>, s: set<int>) returns (m: nat)
    requires LevelExact(db, minsup, level, k)
    requires s <= x && InCounters(x) && |s| == k && minsup <= Support(db, x)
    ensures m < |level| && Elems(level[m].items) == s
  {
    SupportAntimonotone(db, s, x);
    m := ListedAt(level, s);
  }

  /** Two different subsets of `x`, each one item short, whose union is `x`. */
  lemma TwoSubsets(x: set<int>) returns (sa: set<int>, sb: set<int>)
    requires 2 <= |x|
    ensures sa <= x && sb <= x && |sa| == |x| - 1 && |sb| == |x| - 1
    ensures sa != sb && sa + sb == x && sb + sa == x
  {
    NonEmpty(x);
    var a :| a in x;
    assert |x - {a}| == |x| - 1;
    NonEmpty(x - {a});
    var b :| b in x - {a};
    sa, sb := x - {a}, x - {b};
    assert a in sb && a !in sa;
  }

  /** The position of a listed itemset. */
  lemma ListedAt(out: seq<Pattern>, x: set<int>) returns (m: nat)
    requires Listed(out, x)
    ensures m < |out| && Elems(out[m].items) == x
  {
    m :| 0 <= m < |out| && Elems(out[m].items) == x;
  }

  /**
   * What joining rows `i` and `j` adds to the next level: the sorted union with its support, when it
   * has `k + 1` items, meets the threshold and is not `__eq__` to an entry already there.
   */
  function Admitted(db: DB, minsup: nat, level: seq<Pattern>, k: nat, i: nat, j: nat, next: seq<Pattern>)
    : seq<Pattern>
    requires i < |level| && j < |level|
  {
    var u := SortedList(Union(level[i], level[j]));
    var c := Pattern(u, Support(db, Elems(u)));
    if |u| == k + 1 && minsup <= c.support && !Contains(next, c) then [c] else []
  }

  /**
   * Joining rows `i` and `j` keeps the next level good, joins the pair, and adds at most the one
   * candidate, only when there is one.
   */
  lemma AdmittedFacts(db: DB, minsup: nat, level: seq<Pattern>, k: nat, i: nat, j: nat, next: seq<Pattern>)
    requires i < |level| && j < |level| && Bounded(level) && LevelGood(db, minsup, next, k + 1)
    ensures var next' := next + Admitted(db, minsup, level, k, i, j, next);
      && LevelGood(db, minsup, next', k + 1)
      && Joined(db, minsup, next', level[i], level[j], k)
      && |next'| <= |next| + IsCandidate(level, k, i, j)
  {
    AdmittedGood(db, minsup, level, k, i, j, next);
    AdmittedJoins(db, minsup, level, k, i, j, next);
    AdmittedCount(db, minsup, level, k, i, j, next);
  }

  lemma AdmittedGood(db: DB, minsup: nat, level: seq<Pattern>, k: nat, i: nat, j: nat, next: seq<Pattern>)
    requires i < |level| && j < |level| && Bounded(level) && LevelGood(db, minsup, next, k + 1)
    ensures LevelGood(db, minsup, next + Admitted(db, minsup, level, k, i, j, next), k + 1)
  {
    var u := SortedList(Union(level[i], level[j]));
    var c := Pattern(u, Support(db, Elems(u)));
    if |u| == k + 1 && minsup <= c.support && !Contains(next, c) {
      assert InCounters(Elems(level[i].items)) && InCounters(Elems(level[j].items));
      assert Admitted(db, minsup, level, k, i, j, next) == [c];
      FreshCandidate(db, minsup, next, c, k + 1);
    } else {
      assert Admitted(db, minsup, level, k, i, j, next) == [];
      assert next + [] == next;
    }
  }

  lemma AdmittedJoins(db: DB, minsup: nat, level: seq<Pattern>, k: nat, i: nat, j: nat, next: seq<Pattern>)
    requires i < |level| && j < |level|
    ensures Joined(db, minsup, next + Admitted(db, minsup, level, k, i, j, next), level[i], level[j], k)
  {
    var u := SortedList(Union(level[i], level[j]));
    var c := Pattern(u, Support(db, Elems(u)));
    var n := next + Admitted(db, minsup, level, k, i, j, next);
    if |u| == k + 1 && minsup <= c.support {
      if !Contains(next, c) {
        assert Admitted(db, minsup, level, k, i, j, next) == [c];
        assert n[|next|] == c;
      } else {
        KnownCandidate(next, c);
        var m := ListedAt(next, Elems(u));
        assert n[m] == next[m];
      }
    }
  }

  lemma AdmittedCount(db: DB, minsup: nat, level: seq<Pattern>, k: nat, i: nat, j: nat, next: seq<Pattern>)
    requires i < |level| && j < |level|
    ensures |Admitted(db, minsup, level, k, i, j, next)| <= IsCandidate(level, k, i, j)
  {
    CandidateUnion(level, k, i, j);
  }

  /** A candidate with its true count, not `__eq__` to any entry of a level of true counts, holds new items. */
  lemma FreshCandidate(db: DB, minsup: nat, next: seq<Pattern>, obj: Pattern, k: nat)
    requires LevelGood(db, minsup, next, k) && Good(db, minsup, obj, k) && !Contains(next, obj)
    ensures LevelGood(db, minsup, next + [obj], k)
    ensures Listed(next + [obj], Elems(obj.items))
  {
    var n := next + [obj];
    forall j, m | 0 <= j < m < |n| ensures Elems(n[j].items) != Elems(n[m].items) {
      if m == |next| {
        assert n[j] == next[j] && n[m] == obj;
        assert Good(db, minsup, next[j], k);
        if Elems(next[j].items) == Elems(obj.items) {
          assert Same(next[j], obj);
        }
      } else {
        assert n[j] == next[j] && n[m] == next[m];
      }
    }
    forall m | 0 <= m < |n| ensures Good(db, minsup, n[m], k) {
      if m < |next| {
        assert n[m] == next[m];
      }
    }
    assert n[|next|] == obj;
  }

  /** A candidate `__eq__` to an entry of the level is listed already. */
  lemma KnownCandidate(next: seq<Pattern>, obj: Pattern)
    requires Contains(next, obj)
    ensures Listed(next, Elems(obj.items))
  {
    var m :| 0 <= m < |next| && Same(next[m], obj);
  }

  // ---------------------------------------------------------------------------
  // The closure filter

  /** `q` contains `p`, with the same count and a different item list: the test that rejects `p`. */
  predicate Subsumes(q: Pattern, p: Pattern)
  {
    Elems(p.items) <= Elems(q.items) && p.support == q.support && p.items != q.items
  }

  /** No entry of `all` subsumes `p`. */
  ghost predicate NoneSubsumes(all: seq<Pattern>, p: Pattern)
  {
    forall m :: 0 <= m < |all| ==> !Subsumes(all[m], p)
  }

  /** The test of `filter_closed_itemsets`: `p` is not empty and nothing recorded subsumes it. */
  ghost predicate Kept(p: Pattern, all: seq<Pattern>)
  {
    |p.items| > 0 && NoneSubsumes(all, p)
  }

  /** The entries of `s` that pass the test against `all`, in order. */
  ghost function KeptOf(s: seq<Pattern>, all: seq<Pattern>): (r: seq<Pattern>)
    ensures forall p :: p in r <==> p in s && Kept(p, all)
  {
    if |s| == 0 then []
    else
      var n := |s| - 1;
      assert forall p :: p in s <==> p in s[..n] || p == s[n] by {
        assert s == s[..n] + [s[n]];
      }
      KeptOf(s[..n], all) + (if Kept(s[n], all) then [s[n]] else [])
  }

  /** `x` is closed among the counter items: every proper superset is in fewer transactions. */
  ghost predicate ClosedSet(db: DB, x: set<int>)
  {
    forall y :: x < y && InCounters(y) ==> Support(db, y) < Support(db, x)
  }

  /**
   * On the complete list of frequent itemsets, the filter's test is closedness: an itemset is kept
   * exactly when no proper superset has the same support.
   */
  lemma KeptIsClosed(db: DB, minsup: nat, all: seq<Pattern>, m: nat)
    requires Mined(db, minsup, all) && m < |all|
    ensures Kept(all[m], all) <==> ClosedSet(db, Elems(all[m].items))
  {
    if Kept(all[m], all) {
      KeptClosed(db, minsup, all, all[m]);
    }
    if ClosedSet(db, Elems(all[m].items)) {
      ClosedKept(db, minsup, all, all[m]);
    }
  }

  /** Kept means closed: a superset with the same support would be listed, and would subsume it. */
  lemma KeptClosed(db: DB, minsup: nat, all: seq<Pattern>, p: Pattern)
    requires Mined(db, minsup, all) && Kept(p, all) && p.support == Support(db, Elems(p.items))
    requires minsup <= p.support
    ensures ClosedSet(db, Elems(p.items))
  {
    var x := Elems(p.items);
    forall y | x < y && InCounters(y) ensures Support(db, y) < Support(db, x) {
      SupportAntimonotone(db, x, y);
      if Support(db, y) == Support(db, x) {
        var j := ListedAt(all, y);
        assert false;
      }
    }
  }

  /** Closed means kept: an entry subsuming it lists a proper superset with the same support. */
  lemma ClosedKept(db: DB, minsup: nat, all: seq<Pattern>, p: Pattern)
    requires Mined(db, minsup, all) && ClosedSet(db, Elems(p.items))
    requires 1 <= |p.items| && Good(db, minsup, p, |p.items|)
    ensures Kept(p, all)
  {
    var x := Elems(p.items);
    forall j | 0 <= j < |all| ensures !Subsumes(all[j], p) {
      var q := all[j];
      if Subsumes(q, p) {
        assert Good(db, minsup, q, |q.items|);
        if Elems(q.items) == x {
          IncreasingDetermined(q.items, p.items);
        }
        assert false;
      }
    }
  }

  /** The output of AprioriClose: every non-empty frequent closed itemset exactly once, with its count. */
  ghost predicate ClosedResult(db: DB, minsup: nat, out: seq<Pattern>)
  {
    && (forall m :: 0 <= m < |out| ==>
          1 <= |out[m].items| && Good(db, minsup, out[m], |out[m].items|) && ClosedSet(db, Elems(out[m].items)))
    && DistinctItemsets(out)
    && (forall x {:trigger Listed(out, x)} :: InCounters(x) && x != {} && minsup <= Support(db, x) && ClosedSet(db, x) ==> Listed(out, x))
  }

  /** Each itemset sits at the level of its size. */
  ghost predicate Placed(levels: seq<seq<Pattern>>)
  {
    forall l, m :: 0 <= l < |levels| && 0 <= m < |levels[l]| ==> |levels[l][m].items| == l
  }

  /** One more entry of a level scanned after the entries `s`. */
  lemma PrefixSnoc(s: seq<Pattern>, level: seq<Pattern>, m: nat)
    requires m < |level|
    ensures s + level[..m + 1] == s + level[..m] + [level[m]]
  {
    assert level[..m + 1] == level[..m] + [level[m]];
  }

  /** Extending the scanned prefix by one entry. */
  lemma KeptOfSnoc(s: seq<Pattern>, p: Pattern, all: seq<Pattern>)
    ensures KeptOf(s + [p], all) == KeptOf(s, all) + (if Kept(p, all) then [p] else [])
  {
    assert (s + [p])[..|s|] == s;
  }

  /** Filtering keeps itemsets distinct. */
  lemma {:induction false} KeptDistinct(s: seq<Pattern>, all: seq<Pattern>)
    requires DistinctItemsets(s)
    ensures DistinctItemsets(KeptOf(s, all))
  {
    if |s| > 0 {
      var n := |s| - 1;
      assert DistinctItemsets(s[..n]);
      KeptDistinct(s[..n], all);
      var r := KeptOf(s[..n], all);
      if Kept(s[n], all) {
        forall j, k | 0 <= j < |r| && 0 <= k < 1 ensures Elems(r[j].items) != Elems([s[n]][k].items) {
          assert r[j] in s[..n];
          var i :| 0 <= i < n && s[..n][i] == r[j];
          assert s[i] == r[j];
        }
        DistinctAppend(r, [s[n]]);
      } else {
        assert KeptOf(s, all) == r + [];
      }
    }
  }

  /** A list of distinct itemsets holds each pattern at most once. */
  lemma {:induction false} DistinctOnce(s: seq<Pattern>, p: Pattern)
    requires DistinctItemsets(s)
    ensures multiset(s)[p] <= 1
  {
    if |s| > 0 {
      var n := |s| - 1;
      assert DistinctItemsets(s[..n]);
      DistinctOnce(s[..n], p);
      assert s == s[..n] + [s[n]];
      if p == s[n] && p in s[..n] {
        assert false;
      }
    }
  }

  /** Two positions holding the same pattern count it twice. */
  lemma TwoCopies(t: seq<Pattern>, j: nat, k: nat)
    requires j < k < |t| && t[j] == t[k]
    ensures multiset(t)[t[j]] >= 2
  {
    assert t == t[..k] + [t[k]] + t[k + 1..];
    assert t[j] == t[..k][j];
    assert t[j] in multiset(t[..k]);
  }

  /** A reordering of distinct itemsets is distinct. */
  lemma DistinctPerm(s: seq<Pattern>, t: seq<Pattern>)
    requires multiset(s) == multiset(t) && DistinctItemsets(s)
    ensures DistinctItemsets(t)
  {
    forall j, k | 0 <= j < k < |t| ensures Elems(t[j].items) != Elems(t[k].items) {
      if t[j] == t[k] {
        TwoCopies(t, j, k);
        DistinctOnce(s, t[j]);
      } else {
        assert t[j] in multiset(s) && t[k] in multiset(s);
        var a :| 0 <= a < |s| && s[a] == t[j];
        var b :| 0 <= b < |s| && s[b] == t[k];
        assert a != b;
        if a < b {
          assert Elems(s[a].items) != Elems(s[b].items);
        } else {
          assert Elems(s[b].items) != Elems(s[a].items);
        }
      }
    }
  }

  /** The filter applied to the complete list of frequent itemsets leaves exactly the closed ones, in any order. */
  lemma ClosedFromMined(db: DB, minsup: nat, all: seq<Pattern>, out: seq<Pattern>)
    requires Mined(db, minsup, all) && multiset(out) == multiset(KeptOf(all, all))
    ensures ClosedResult(db, minsup, out)
  {
    forall m | 0 <= m < |out|
      ensures 1 <= |out[m].items| && Good(db, minsup, out[m], |out[m].items|) && ClosedSet(db, Elems(out[m].items))
    {
      OutSound(db, minsup, all, out, m);
    }
    KeptDistinct(all, all);
    DistinctPerm(KeptOf(all, all), out);
    forall x | InCounters(x) && x != {} && minsup <= Support(db, x) && ClosedSet(db, x) ensures Listed(out, x) {
      OutComplete(db, minsup, all, out, x);
    }
  }

  lemma OutSound(db: DB, minsup: nat, all: seq<Pattern>, out: seq<Pattern>, m: nat)
    requires Mined(db, minsup, all) && multiset(out) == multiset(KeptOf(all, all)) && m < |out|
    ensures 1 <= |out[m].items| && Good(db, minsup, out[m], |out[m].items|) && ClosedSet(db, Elems(out[m].items))
  {
    assert out[m] in multiset(KeptOf(all, all));
    assert out[m] in KeptOf(all, all);
    var j := IndexOf(all, out[m]);
    KeptIsClosed(db, minsup, all, j);
  }

  lemma OutComplete(db: DB, minsup: nat, all: seq<Pattern>, out: seq<Pattern>, x: set<int>)
    requires Mined(db, minsup, all) && multiset(out) == multiset(KeptOf(all, all))
    requires InCounters(x) && x != {} && minsup <= Support(db, x) && ClosedSet(db, x)
    ensures Listed(out, x)
  {
    var j := ListedAt(all, x);
    KeptIsClosed(db, minsup, all, j);
    assert all[j] in multiset(out);
    var m := IndexOf(out, all[j]);
  }

  /** A position of a member. */
  lemma IndexOf(s: seq<Pattern>, p: Pattern) returns (j: nat)
    requires p in s
    ensures j < |s| && s[j] == p
  {
    j :| 0 <= j < |s| && s[j] == p;
  }

  /** An entry of a level is in the collection. */
  lemma {:induction false} InFlat(levels: seq<seq<Pattern>>, l: nat, m: nat)
    requires l < |levels| && m < |levels[l]|
    ensures levels[l][m] in Flat(levels)
  {
    var n := |levels| - 1;
    if l < n {
      InFlat(levels[..n], l, m);
    }
  }

  /** `NoneSubsumes` over a concatenation. */
  lemma NoneSubsumesAppend(a: seq<Pattern>, b: seq<Pattern>, p: Pattern)
    requires NoneSubsumes(a, p) && NoneSubsumes(b, p)
    ensures NoneSubsumes(a + b, p)
  {
    forall m | 0 <= m < |a + b| ensures !Subsumes((a + b)[m], p) {
      if m < |a| {
        assert (a + b)[m] == a[m];
      } else {
        assert (a + b)[m] == b[m - |a|];
      }
    }
  }

  /**
   * The closure test of `filter_closed_itemsets` for one itemset: scans every level, stopping at the
   * first itemset that subsumes it.
   */
  method IsClosed(itemset: Pattern, levels: seq<seq<Pattern>>) returns (isClosed: bool)
    ensures isClosed <==> NoneSubsumes(Flat(levels), itemset)
  {
    isClosed := true;
    ghost var culprit := itemset;
    for l := 0 to |levels|
      invariant isClosed && NoneSubsumes(Flat(levels[..l]), itemset)
    {
      var otherLevel := levels[l];
      for m := 0 to |otherLevel|
        invariant isClosed && NoneSubsumes(otherLevel[..m], itemset)
      {
        var other := otherLevel[m];
        if Elems(itemset.items) <= Elems(other.items) && itemset.support == other.support && itemset.items != other.items {
          isClosed := false;
          culprit := other;
          InFlat(levels, l, m);
          break;
        }
        assert otherLevel[..m + 1] == otherLevel[..m] + [other];
        NoneSubsumesAppend(otherLevel[..m], [other], itemset);
      }
      if !isClosed {
        break;
      }
      assert otherLevel[..|otherLevel|] == otherLevel;
      assert levels[..l + 1] == levels[..l] + [otherLevel];
      FlatSnoc(levels[..l], otherLevel);
      NoneSubsumesAppend(Flat(levels[..l]), otherLevel, itemset);
    }
    if isClosed {
      assert levels[..|levels|] == levels;
    } else {
      assert culprit in Flat(levels) && Subsumes(culprit, itemset);
    }
  }

  /** `itemset_counts`: counter `a` ends with the number of transactions holding item `a`. */
  method CountSlots(db: DB) returns (counts: array<nat>)
    requires InSlots(db)
    ensures fresh(counts) && counts.Length == Slots
    ensures forall a :: 0 <= a < Slots ==> counts[a] == Support(db, {a})
  {
    counts := new nat[Slots](_ => 0);
    for i := 0 to |db|
      invariant forall a :: 0 <= a < Slots ==> counts[a] == Support(db[..i], {a})
    {
      assert db[..i + 1][..i] == db[..i];
      var transaction := db[i];
      var rest := transaction;
      while rest != {}
        invariant rest <= transaction
        invariant forall a :: 0 <= a < Slots ==>
          counts[a] == Support(db[..i], {a}) + (if a in transaction - rest then 1 else 0)
        decreases rest
      {
        NonEmpty(rest);
        var item :| item in rest;
        assert 0 <= item < Slots;
        counts[item] := counts[item] + 1;
        rest := rest - {item};
      }
    }
    assert db[..|db|] == db;
  }

  /** The first level after the counters below `i`: the frequent ones, as singletons in ascending order. */
  ghost predicate FirstUpTo(db: DB, minsup: nat, level: seq<Pattern>, i: nat)
  {
    && LevelGood(db, minsup, level, 1)
    && (forall m :: 0 <= m < |level| ==> level[m].items[0] < i)
    && (forall m, n :: 0 <= m < n < |level| ==> level[m].items[0] < level[n].items[0])
    && (forall a :: 0 <= a < i && minsup <= Support(db, {a}) ==> Listed(level, {a}))
  }

  /** Counter `i`: its singleton is appended exactly when it meets the threshold. */
  lemma FirstStep(db: DB, minsup: nat, level: seq<Pattern>, i: nat)
    requires FirstUpTo(db, minsup, level, i) && i < Slots
    ensures minsup <= Support(db, {i}) ==> FirstUpTo(db, minsup, level + [Pattern([i], Support(db, {i}))], i + 1)
    ensures Support(db, {i}) < minsup ==> FirstUpTo(db, minsup, level, i + 1)
  {
    if minsup <= Support(db, {i}) {
      FirstKeep(db, minsup, level, i);
    } else {
      forall a | 0 <= a < i + 1 && minsup <= Support(db, {a}) ensures Listed(level, {a}) {
      }
    }
  }

  lemma FirstKeep(db: DB, minsup: nat, level: seq<Pattern>, i: nat)
    requires FirstUpTo(db, minsup, level, i) && i < Slots && minsup <= Support(db, {i})
    ensures FirstUpTo(db, minsup, level + [Pattern([i], Support(db, {i}))], i + 1)
  {
    var p := Pattern([i], Support(db, {i}));
    var n := level + [p];
    assert Elems([i]) == {i};
    forall j | 0 <= j < |level| ensures Elems(level[j].items) != Elems(p.items) {
      assert Good(db, minsup, level[j], 1);
      assert level[j].items[0] in Elems(level[j].items);
    }
    DistinctAppend(level, [p]);
    assert n[|level|] == p;
    forall m | 0 <= m < |n| ensures Good(db, minsup, n[m], 1) && n[m].items[0] < i + 1 {
      if m < |level| {
        assert n[m] == level[m];
      }
    }
    forall a | 0 <= a < i + 1 && minsup <= Support(db, {a}) ensures Listed(n, {a}) {
      if a < i {
        ListedLeft(level, [p], {a});
      }
    }
  }

  /** Every itemset of one counter item is the singleton of an item below `Slots`. */
  lemma FirstComplete(db: DB, minsup: nat, level: seq<Pattern>)
    requires forall a :: 0 <= a < Slots && minsup <= Support(db, {a}) ==> Listed(level, {a})
    ensures forall x {:trigger Listed(level, x)} :: InCounters(x) && |x| == 1 && minsup <= Support(db, x) ==> Listed(level, x)
  {
    forall x | InCounters(x) && |x| == 1 && minsup <= Support(db, x) ensures Listed(level, x) {
      var a := Singleton(x);
    }
  }

  lemma SliceAppend(start: seq<Pattern>, before: seq<Pattern>, added: seq<Pattern>)
    requires start <= before
    ensures start <= before + added && (before + added)[|start|..] == before[|start|..] + added
  {
  }

  /** Every pair joined up to the end of row `i` is every pair joined before row `i + 1`. */
  lemma RowDone(db: DB, minsup: nat, level: seq<Pattern>, k: nat, next: seq<Pattern>, i: nat)
    requires i < |level| && JoinedUpTo(db, minsup, level, k, next, i, |level|)
    ensures JoinedUpTo(db, minsup, level, k, next, i + 1, 0)
  {
  }

  /** One more pair joined. */
  lemma JoinedStep(db: DB, minsup: nat, level: seq<Pattern>, k: nat, next: seq<Pattern>, next': seq<Pattern>,
                   i: nat, j: nat)
    requires i < j < |level| && next <= next' && JoinedUpTo(db, minsup, level, k, next, i, j)
    requires Joined(db, minsup, next', level[i], level[j], k)
    ensures JoinedUpTo(db, minsup, level, k, next', i, j + 1)
  {
    JoinedGrow(db, minsup, level, k, next, next', i, j);
  }

  /** One iteration of the inner join loop keeps its invariant, with `next'` the sequence after the pair. */
  lemma PairStep(db: DB, minsup: nat, level: seq<Pattern>, k: nat, i: nat, j: nat, start: seq<Pattern>,
                 next: seq<Pattern>, recorded: seq<Pattern>)
    requires i < j < |level| && Bounded(level)
    requires start <= next && JoinedUpTo(db, minsup, level, k, next, i, j) && LevelGood(db, minsup, next, k + 1)
    requires |next| <= |start| + RowCandidates(level, k, i, j)
    ensures var added := Admitted(db, minsup, level, k, i, j, next);
      var next' := next + added;
      && start <= next' && JoinedUpTo(db, minsup, level, k, next', i, j + 1)
      && LevelGood(db, minsup, next', k + 1)
      && recorded + next[|start|..] + added == recorded + next'[|start|..]
      && RowCandidates(level, k, i, j + 1) == RowCandidates(level, k, i, j) + IsCandidate(level, k, i, j)
      && |next'| <= |start| + RowCandidates(level, k, i, j + 1)
  {
    var added := Admitted(db, minsup, level, k, i, j, next);
    AdmittedFacts(db, minsup, level, k, i, j, next);
    SliceAppend(start, next, added);
    Search.Regroup(recorded, next[|start|..], added);
    JoinedStep(db, minsup, level, k, next, next + added, i, j);
  }

  /** Joining one more level adds its candidates to the total. */
  lemma JoinedSnoc(joined: seq<seq<Pattern>>, level: seq<Pattern>)
    ensures CandidateTotal(joined + [level]) == CandidateTotal(joined) + Candidates(level, |joined| + 1, |level|)
  {
    assert (joined + [level])[..|joined|] == joined;
  }

  /** `AlgoAprioriClose`: the recorded itemsets, the threshold and the statistics of the last run. */
  class AprioriCloseAlgo {
    var frequentItemsets: Itemsets
    var minSuppRelative: nat
    var candidatesCount: nat
    var maxLevel: nat

    constructor ()
      ensures fresh(frequentItemsets) && frequentItemsets.levels == [[]]
      ensures minSuppRelative == 0 && candidatesCount == 0 && maxLevel == 0
    {
      frequentItemsets := new Itemsets("FREQUENT ITEMSETS");
      minSuppRelative := 0;
      candidatesCount := 0;
      maxLevel := 0;
    }

    /**
     * The first level of `run_algorithm`: the singletons of the counter items meeting the threshold, in
     * ascending order of item, each recorded at level 1.
     */
    method FirstLevel(db: DB, counts: array<nat>) returns (level: seq<Pattern>)
      requires counts.Length == Slots && forall a :: 0 <= a < Slots ==> counts[a] == Support(db, {a})
      requires Flat(frequentItemsets.levels) == [] && |frequentItemsets.levels| <= 2
      modifies frequentItemsets`levels
      ensures LevelExact(db, minSuppRelative, level, 1)
      ensures forall m, n :: 0 <= m < n < |level| ==> level[m].items[0] < level[n].items[0]
      ensures Flat(frequentItemsets.levels) == level && |frequentItemsets.levels| <= 2
    {
      level := [];
      for i := 0 to Slots
        invariant FirstUpTo(db, minSuppRelative, level, i)
        invariant Flat(frequentItemsets.levels) == level && |frequentItemsets.levels| <= 2
      {
        FirstStep(db, minSuppRelative, level, i);
        if counts[i] >= minSuppRelative {
          var itemset := Pattern([i], counts[i]);
          AddedLast(frequentItemsets.levels, 1, itemset);
          level := level + [itemset];
          frequentItemsets.AddItemset(itemset, 1);
        }
      }
      FirstComplete(db, minSuppRelative, level);
    }

    /**
     * One pair of the join: the sorted union of rows `i` and `j` is a candidate when it has `k + 1`
     * items; it is counted, and enters the next level when its support meets the threshold and no
     * `__eq__` itemset is there yet.
     */
    method JoinPair(db: DB, level: seq<Pattern>, k: nat, i: nat, j: nat, next: seq<Pattern>)
      returns (next': seq<Pattern>)
      requires i < j < |level| && |frequentItemsets.levels| <= k + 2
      modifies this`candidatesCount, frequentItemsets`levels
      ensures next' == next + Admitted(db, minSuppRelative, level, k, i, j, next)
      ensures Flat(frequentItemsets.levels) == old(Flat(frequentItemsets.levels)) + Admitted(db, minSuppRelative, level, k, i, j, next)
      ensures |frequentItemsets.levels| <= k + 2
      ensures candidatesCount == old(candidatesCount) + IsCandidate(level, k, i, j)
    {
      next' := next;
      CandidateUnion(level, k, i, j);
      var newItemset := SortedList(Elems(level[i].items) + Elems(level[j].items));
      if |newItemset| == k + 1 {
        var support := CountSupport(db, newItemset);
        candidatesCount := candidatesCount + 1;
        next' := Admit(db, level, k, i, j, newItemset, support, next);
      } else {
        assert Admitted(db, minSuppRelative, level, k, i, j, next) == [];
      }
    }

    /** The tests of the join on a candidate of `k + 1` items: a frequent one not yet listed is listed and recorded. */
    method Admit(db: DB, level: seq<Pattern>, k: nat, i: nat, j: nat, newItemset: seq<int>, support: nat,
                 next: seq<Pattern>)
      returns (next': seq<Pattern>)
      requires i < |level| && j < |level| && |frequentItemsets.levels| <= k + 2
      requires newItemset == SortedList(Union(level[i], level[j])) && |newItemset| == k + 1
      requires support == Support(db, Elems(newItemset))
      modifies frequentItemsets`levels
      ensures next' == next + Admitted(db, minSuppRelative, level, k, i, j, next)
      ensures Flat(frequentItemsets.levels) == old(Flat(frequentItemsets.levels)) + Admitted(db, minSuppRelative, level, k, i, j, next)
      ensures |frequentItemsets.levels| <= k + 2
    {
      next' := next;
      if support >= minSuppRelative {
        var newItemsetObj := Pattern(newItemset, support);
        if !Contains(next, newItemsetObj) {
          next' := next + [newItemsetObj];
          Record(newItemsetObj, k + 1);
        }
      }
    }

    /** `frequent_itemsets.add_itemset(x, k)` onto a collection of at most `k + 1` levels. */
    method Record(x: Pattern, k: nat)
      requires |frequentItemsets.levels| <= k + 1
      modifies frequentItemsets`levels
      ensures Flat(frequentItemsets.levels) == old(Flat(frequentItemsets.levels)) + [x]
      ensures |frequentItemsets.levels| <= k + 1
    {
      AddedLast(frequentItemsets.levels, k, x);
      frequentItemsets.AddItemset(x, k);
    }

    /**
     * The pair loops of `run_algorithm` for level `k`: joins every pair of rows, and returns the next
     * level, which lists every frequent itemset of `k + 1` items exactly once and was recorded at
     * level `k + 1`; each candidate adds one to `candidates_count`, and every entry was a candidate.
     */
    method JoinLevel(db: DB, level: seq<Pattern>, k: nat) returns (next: seq<Pattern>)
      requires 1 <= k && LevelExact(db, minSuppRelative, level, k) && |frequentItemsets.levels| <= k + 1
      modifies this`candidatesCount, frequentItemsets`levels
      ensures LevelExact(db, minSuppRelative, next, k + 1)
      ensures Flat(frequentItemsets.levels) == old(Flat(frequentItemsets.levels)) + next
      ensures |frequentItemsets.levels| <= k + 2
      ensures candidatesCount == old(candidatesCount) + Candidates(level, k, |level|)
      ensures |next| <= Candidates(level, k, |level|)
    {
      LevelBounded(db, minSuppRelative, level, k);
      next := JoinRows(db, level, k);
      JoinComplete(db, minSuppRelative, level, k, next);
    }

    /** The two pair loops of the join, over rows holding counter items. */
    method JoinRows(db: DB, level: seq<Pattern>, k: nat) returns (next: seq<Pattern>)
      requires Bounded(level) && |frequentItemsets.levels| <= k + 1
      modifies this`candidatesCount, frequentItemsets`levels
      ensures JoinedUpTo(db, minSuppRelative, level, k, next, |level|, 0)
      ensures LevelGood(db, minSuppRelative, next, k + 1)
      ensures Flat(frequentItemsets.levels) == old(Flat(frequentItemsets.levels)) + next
      ensures |frequentItemsets.levels| <= k + 2
      ensures candidatesCount == old(candidatesCount) + Candidates(level, k, |level|)
      ensures |next| <= Candidates(level, k, |level|)
    {
      next := [];
      ghost var recorded := Flat(frequentItemsets.levels);
      for i := 0 to |level|
        invariant JoinedUpTo(db, minSuppRelative, level, k, next, i, 0)
        invariant LevelGood(db, minSuppRelative, next, k + 1)
        invariant Flat(frequentItemsets.levels) == recorded + next
        invariant |frequentItemsets.levels| <= k + 2
        invariant candidatesCount == old(candidatesCount) + Candidates(level, k, i)
        invariant |next| <= Candidates(level, k, i)
      {
        next := JoinStep(db, level, k, i, next, recorded);
      }
    }

    /** One iteration of the outer join loop: row `i` joined with every later row. */
    method JoinStep(db: DB, level: seq<Pattern>, k: nat, i: nat, start: seq<Pattern>, ghost recorded: seq<Pattern>)
      returns (next: seq<Pattern>)
      requires i < |level| && Bounded(level)
      requires JoinedUpTo(db, minSuppRelative, level, k, start, i, 0)
      requires LevelGood(db, minSuppRelative, start, k + 1)
      requires Flat(frequentItemsets.levels) == recorded + start && |frequentItemsets.levels| <= k + 2
      modifies this`candidatesCount, frequentItemsets`levels
      ensures JoinedUpTo(db, minSuppRelative, level, k, next, i + 1, 0)
      ensures LevelGood(db, minSuppRelative, next, k + 1)
      ensures Flat(frequentItemsets.levels) == recorded + next && |frequentItemsets.levels| <= k + 2
      ensures candidatesCount == old(candidatesCount) + RowCandidates(level, k, i, |level|)
      ensures |next| <= |start| + RowCandidates(level, k, i, |level|)
    {
      next := JoinRow(db, level, k, i, start);
      Search.Regroup(recorded, start, next[|start|..]);
      assert start + next[|start|..] == next;
      RowDone(db, minSuppRelative, level, k, next, i);
    }

    /** The inner loop of the join for row `i`: joins it with every later row. */
    method JoinRow(db: DB, level: seq<Pattern>, k: nat, i: nat, start: seq<Pattern>) returns (next: seq<Pattern>)
      requires i < |level| && Bounded(level)
      requires JoinedUpTo(db, minSuppRelative, level, k, start, i, i + 1)
      requires LevelGood(db, minSuppRelative, start, k + 1) && |frequentItemsets.levels| <= k + 2
      modifies this`candidatesCount, frequentItemsets`levels
      ensures start <= next && JoinedUpTo(db, minSuppRelative, level, k, next, i, |level|)
      ensures LevelGood(db, minSuppRelative, next, k + 1)
      ensures Flat(frequentItemsets.levels) == old(Flat(frequentItemsets.levels)) + next[|start|..]
      ensures |frequentItemsets.levels| <= k + 2
      ensures candidatesCount == old(candidatesCount) + RowCandidates(level, k, i, |level|)
      ensures |next| <= |start| + RowCandidates(level, k, i, |level|)
    {
      next := start;
      ghost var recorded := Flat(frequentItemsets.levels);
      ghost var counted := candidatesCount;
      for j := i + 1 to |level|
        invariant start <= next && JoinedUpTo(db, minSuppRelative, level, k, next, i, j)
        invariant LevelGood(db, minSuppRelative, next, k + 1)
        invariant Flat(frequentItemsets.levels) == recorded + next[|start|..]
        invariant |frequentItemsets.levels| <= k + 2
        invariant candidatesCount == counted + RowCandidates(level, k, i, j)
        invariant |next| <= |start| + RowCandidates(level, k, i, j)
      {
        next := JoinColumn(db, level, k, i, j, start, next, recorded, counted);
      }
    }

    /** One iteration of the inner join loop: row `i` joined with row `j`. */
    method JoinColumn(db: DB, level: seq<Pattern>, k: nat, i: nat, j: nat, start: seq<Pattern>, next: seq<Pattern>,
                      ghost recorded: seq<Pattern>, ghost counted: nat)
      returns (next': seq<Pattern>)
      requires i < j < |level| && Bounded(level)
      requires start <= next && JoinedUpTo(db, minSuppRelative, level, k, next, i, j)
      requires LevelGood(db, minSuppRelative, next, k + 1)
      requires Flat(frequentItemsets.levels) == recorded + next[|start|..] && |frequentItemsets.levels| <= k + 2
      requires candidatesCount == counted + RowCandidates(level, k, i, j)
      requires |next| <= |start| + RowCandidates(level, k, i, j)
      modifies this`candidatesCount, frequentItemsets`levels
      ensures start <= next' && JoinedUpTo(db, minSuppRelative, level, k, next', i, j + 1)
      ensures LevelGood(db, minSuppRelative, next', k + 1)
      ensures Flat(frequentItemsets.levels) == recorded + next'[|start|..] && |frequentItemsets.levels| <= k + 2
      ensures candidatesCount == counted + RowCandidates(level, k, i, j + 1)
      ensures |next'| <= |start| + RowCandidates(level, k, i, j + 1)
    {
      PairStep(db, minSuppRelative, level, k, i, j, start, next, recorded);
      next' := JoinPair(db, level, k, i, j, next);
    }

    /**
     * The `while level` loop of `run_algorithm`: joins level after level until one is empty, recording
     * each; every non-empty frequent itemset ends up recorded exactly once with its count, and
     * `max_level` is the size of the largest ones (unchanged when no item is frequent).
     */
    method MineLevels(db: DB, first: seq<Pattern>) returns (ghost mined: seq<Pattern>, ghost joined: seq<seq<Pattern>>)
      requires LevelExact(db, minSuppRelative, first, 1)
      requires Flat(frequentItemsets.levels) == first && |frequentItemsets.levels| <= 2
      modifies this`candidatesCount, this`maxLevel, frequentItemsets`levels
      ensures Mined(db, minSuppRelative, mined) && Flat(frequentItemsets.levels) == mined
      ensures AnyFrequent(db, minSuppRelative) ==> LongestFrequent(db, minSuppRelative, maxLevel) && |joined| == maxLevel
      ensures !AnyFrequent(db, minSuppRelative) ==> maxLevel == old(maxLevel) && joined == []
      ensures forall m :: 0 <= m < |joined| ==> LevelExact(db, minSuppRelative, joined[m], m + 1)
      ensures candidatesCount == old(candidatesCount) + CandidateTotal(joined)
      ensures |mined| <= |first| + CandidateTotal(joined)
    {
      var level := first;
      var k := 1;
      mined := first;
      joined := [];
      ghost var largest: set<int> := {};
      while level != []
        invariant 1 <= k && (level != [] ==> k <= Slots)
        invariant LevelExact(db, minSuppRelative, level, k) && MinedUpTo(db, minSuppRelative, mined, k)
        invariant Flat(frequentItemsets.levels) == mined && |frequentItemsets.levels| <= k + 1
        invariant k == 1 ==> maxLevel == old(maxLevel)
        invariant k > 1 ==> maxLevel == k - 1 && FrequentOfSize(db, minSuppRelative, largest, k - 1)
        invariant |joined| == k - 1 && forall m :: 0 <= m < |joined| ==> LevelExact(db, minSuppRelative, joined[m], m + 1)
        invariant candidatesCount == old(candidatesCount) + CandidateTotal(joined)
        invariant |mined| <= |first| + CandidateTotal(joined)
        decreases Slots + 1 - k
      {
        level, mined, joined, largest := MineLevel(db, level, k, mined, joined, first, old(candidatesCount));
        k := k + 1;
      }
      MinedAll(db, minSuppRelative, mined, k);
      LongestAtExit(db, minSuppRelative, k, largest);
    }

    /** One iteration of the `while level` loop: level `k` is joined into level `k + 1`. */
    method MineLevel(db: DB, level: seq<Pattern>, k: nat, ghost mined: seq<Pattern>, ghost joined: seq<seq<Pattern>>,
                     ghost first: seq<Pattern>, ghost counted: nat)
      returns (next: seq<Pattern>, ghost mined': seq<Pattern>, ghost joined': seq<seq<Pattern>>, ghost largest: set<int>)
      requires 1 <= k <= Slots && level != []
      requires LevelExact(db, minSuppRelative, level, k) && MinedUpTo(db, minSuppRelative, mined, k)
      requires Flat(frequentItemsets.levels) == mined && |frequentItemsets.levels| <= k + 1
      requires |joined| == k - 1 && forall m :: 0 <= m < |joined| ==> LevelExact(db, minSuppRelative, joined[m], m + 1)
      requires candidatesCount == counted + CandidateTotal(joined) && |mined| <= |first| + CandidateTotal(joined)
      modifies this`candidatesCount, this`maxLevel, frequentItemsets`levels
      ensures next != [] ==> k + 1 <= Slots
      ensures LevelExact(db, minSuppRelative, next, k + 1) && MinedUpTo(db, minSuppRelative, mined', k + 1)
      ensures Flat(frequentItemsets.levels) == mined' && |frequentItemsets.levels| <= k + 2
      ensures maxLevel == k && FrequentOfSize(db, minSuppRelative, largest, k)
      ensures |joined'| == k && forall m :: 0 <= m < |joined'| ==> LevelExact(db, minSuppRelative, joined'[m], m + 1)
      ensures candidatesCount == counted + CandidateTotal(joined') && |mined'| <= |first| + CandidateTotal(joined')
    {
      maxLevel := k;
      largest := Elems(level[0].items);
      LargestOfLevel(db, minSuppRelative, level, k);
      next := JoinLevel(db, level, k);
      JoinedSnoc(joined, level);
      joined' := joined + [level];
      MinedStep(db, minSuppRelative, mined, next, k);
      mined' := mined + next;
      if next != [] {
        LevelBound(db, minSuppRelative, next, k + 1);
      }
    }

    /** The loop that makes sure levels `0 .. max_level` exist: empty levels only. */
    method PadLevels()
      modifies frequentItemsets`levels
      ensures frequentItemsets.levels == Padded(old(frequentItemsets.levels), maxLevel + 1)
      ensures Flat(frequentItemsets.levels) == Flat(old(frequentItemsets.levels))
    {
      while |frequentItemsets.levels| < maxLevel + 1
        invariant Padded(frequentItemsets.levels, maxLevel + 1) == Padded(old(frequentItemsets.levels), maxLevel + 1)
        invariant Flat(frequentItemsets.levels) == Flat(old(frequentItemsets.levels))
        decreases maxLevel + 1 - |frequentItemsets.levels|
      {
        FlatSnoc(frequentItemsets.levels, []);
        frequentItemsets.levels := frequentItemsets.levels + [[]];
      }
    }

    /**
     * `filter_closed_itemsets`: a new collection holding, each at the level of its size, the non-empty
     * recorded itemsets that no other recorded itemset subsumes; it replaces the recorded one.
     */
    method FilterClosedItemsets() returns (closed: Itemsets)
      modifies this`frequentItemsets
      ensures fresh(closed) && frequentItemsets == closed
      ensures multiset(Flat(closed.levels))
        == multiset(KeptOf(Flat(old(frequentItemsets.levels)), Flat(old(frequentItemsets.levels))))
      ensures Placed(closed.levels)
    {
      closed := FilterLevels(frequentItemsets.levels);
      frequentItemsets := closed;
    }

    /** The outer loop of `filter_closed_itemsets`: every level in turn, into a new collection. */
    method FilterLevels(levels: seq<seq<Pattern>>) returns (closed: Itemsets)
      ensures fresh(closed)
      ensures multiset(Flat(closed.levels)) == multiset(KeptOf(Flat(levels), Flat(levels)))
      ensures Placed(closed.levels)
    {
      closed := new Itemsets("CLOSED ITEMSETS");
      for l := 0 to |levels|
        invariant fresh(closed)
        invariant multiset(Flat(closed.levels)) == multiset(KeptOf(Flat(levels[..l]), Flat(levels)))
        invariant Placed(closed.levels)
      {
        FilterLevel(closed, levels, l);
        FlatPrefixSnoc(levels, l);
      }
      assert levels[..|levels|] == levels;
    }

    /** The inner loop of `filter_closed_itemsets`, over level `l`. */
    method FilterLevel(closed: Itemsets, levels: seq<seq<Pattern>>, l: nat)
      requires l < |levels| && Placed(closed.levels)
      requires multiset(Flat(closed.levels)) == multiset(KeptOf(Flat(levels[..l]), Flat(levels)))
      modifies closed`levels
      ensures Placed(closed.levels)
      ensures multiset(Flat(closed.levels)) == multiset(KeptOf(Flat(levels[..l]) + levels[l], Flat(levels)))
    {
      var level := levels[l];
      ghost var seen := Flat(levels[..l]);
      for m := 0 to |level|
        invariant seen == Flat(levels[..l]) + level[..m]
        invariant Placed(closed.levels)
        invariant multiset(Flat(closed.levels)) == multiset(KeptOf(seen, Flat(levels)))
      {
        PrefixSnoc(Flat(levels[..l]), level, m);
        FilterEntry(closed, levels, level[m], seen);
        seen := seen + [level[m]];
      }
      assert level[..|level|] == level;
    }

    /**
     * One entry of `filter_closed_itemsets`: a non-empty itemset that no other frequent itemset
     * subsumes goes to `closed`, at the level of its size; `scanned` lists the entries before it.
     */
    method FilterEntry(closed: Itemsets, levels: seq<seq<Pattern>>, itemset: Pattern, ghost scanned: seq<Pattern>)
      requires Placed(closed.levels)
      requires multiset(Flat(closed.levels)) == multiset(KeptOf(scanned, Flat(levels)))
      modifies closed`levels
      ensures Placed(closed.levels)
      ensures multiset(Flat(closed.levels)) == multiset(KeptOf(scanned + [itemset], Flat(levels)))
    {
      KeptOfSnoc(scanned, itemset, Flat(levels));
      if |itemset.items| != 0 {
        var isClosed := IsClosed(itemset, levels);
        if isClosed {
          PlacedAdd(closed.levels, |itemset.items|, itemset);
          closed.AddItemset(itemset, |itemset.items|);
        }
      }
    }

    /**
     * `run_algorithm` without the timing, memory logging and printing, on a newly constructed object:
     * the threshold is `ceil(num / den * |database|)`; every non-empty frequent itemset over the
     * counter items is mined level by level, and the closure filter leaves exactly the frequent closed
     * itemsets, each once, with its support, at the level of its size.
     */
    method RunAlgorithm(num: nat, den: nat, database: DB) returns (closed: Itemsets, ghost joined: seq<seq<Pattern>>)
      requires den > 0 && InSlots(database) && frequentItemsets.levels == [[]]
      modifies this, frequentItemsets
      ensures minSuppRelative == CeilRatio(|database|, num, den)
      ensures fresh(closed) && frequentItemsets == closed
      ensures ClosedResult(database, minSuppRelative, Flat(closed.levels)) && Placed(closed.levels)
      ensures AnyFrequent(database, minSuppRelative) ==> LongestFrequent(database, minSuppRelative, maxLevel) && |joined| == maxLevel
      ensures !AnyFrequent(database, minSuppRelative) ==> maxLevel == old(maxLevel) && joined == []
      ensures forall m :: 0 <= m < |joined| ==> LevelExact(database, minSuppRelative, joined[m], m + 1)
      ensures candidatesCount == old(candidatesCount) + CandidateTotal(joined)
    {
      minSuppRelative := CeilRatio(|database|, num, den);
      var itemsetCounts := CountSlots(database);
      var level := FirstLevel(database, itemsetCounts);
      ghost var mined;
      mined, joined := MineLevels(database, level);
      PadLevels();
      closed := FilterClosedItemsets();
      ClosedFromMined(database, minSuppRelative, mined, Flat(closed.levels));
    }
  }

  /** A good level holds counter items only. */
  lemma LevelBounded(db: DB, minsup: nat, level: seq<Pattern>, k: nat)
    requires LevelGood(db, minsup, level, k)
    ensures Bounded(level)
  {
    forall m | 0 <= m < |level| ensures InCounters(Elems(level[m].items)) {
      assert Good(db, minsup, level[m], k);
    }
  }

  /** The first entry of a non-empty level is a frequent itemset of its size. */
  lemma LargestOfLevel(db: DB, minsup: nat, level: seq<Pattern>, k: nat)
    requires LevelGood(db, minsup, level, k) && level != []
    ensures FrequentOfSize(db, minsup, Elems(level[0].items), k)
  {
    assert Good(db, minsup, level[0], k);
    DistinctCard(level[0].items);
  }

  /** At the exit of the loop of the levels, `max_level` is the size of the largest frequent itemsets. */
  lemma LongestAtExit(db: DB, minsup: nat, k: nat, largest: set<int>)
    requires 1 <= k && forall y :: InCounters(y) && |y| >= k ==> Support(db, y) < minsup
    requires k > 1 ==> FrequentOfSize(db, minsup, largest, k - 1)
    ensures k > 1 <==> AnyFrequent(db, minsup)
    ensures k > 1 ==> LongestFrequent(db, minsup, k - 1)
  {
    if k > 1 {
      assert largest != {} by {
        assert |largest| == k - 1;
      }
    }
  }

  /** Adding an itemset at the level of its size keeps every itemset at the level of its size. */
  lemma PlacedAdd(levels: seq<seq<Pattern>>, k: nat, x: Pattern)
    requires Placed(levels) && |x.items| == k
    ensures Placed(Added(levels, k, x))
  {
    AddedShape(levels, k, x);
    var r: seq<seq<Pattern>> := Added(levels, k, x);
    forall l, m | 0 <= l < |r| && 0 <= m < |r[l]| ensures |r[l][m].items| == l {
      if l == k {
        var before: seq<Pattern> := if k < |levels| then levels[k] else [];
        assert r[k] == before + [x];
        if m < |before| {
          assert r[l][m] == before[m];
        }
      }
    }
  }
}
