/**
 * LCM: closed itemset mining with an explicit stack.  `run_algorithm` pops an
 * itemset together with the transactions holding it, records it when it is
 * frequent and no outside item keeps its support, and pushes its extensions by a
 * larger item whose projections still hold enough transactions.
 */
module LCM {
  import opened Mining

  datatype Option<T> = None | Some(value: T)

  // ---------------------------------------------------------------------------
  // Itemset and Itemsets

  /** A strictly increasing list is already sorted. */
  lemma SortedIsIdentity(items: seq<int>)
    requires StrictlyIncreasing(items)
    ensures SortedList(Elems(items)) == items
  {
    IncreasingDetermined(SortedList(Elems(items)), items);
  }

  /** `Itemset(items, support)`: the items are stored sorted. */
  function MakeItemset(items: seq<int>, support: nat): (p: Pattern)
    ensures StrictlyIncreasing(p.items) && Elems(p.items) == Elems(items) && p.support == support
    ensures StrictlyIncreasing(items) ==> p.items == items
  {
    var sorted := SortedList(Elems(items));
    assert StrictlyIncreasing(items) ==> sorted == items by {
      if StrictlyIncreasing(items) {
        SortedIsIdentity(items);
      }
    }
    Pattern(sorted, support)
  }

  /** The list a `defaultdict(list)` yields for length `k`. */
  function Bucket(levels: map<nat, seq<Pattern>>, k: nat): seq<Pattern>
  {
    if k in levels then levels[k] else []
  }

  /** The levels after `add_itemset(p)`: `p` appended to the list for its length, no other list touched. */
  function Appended(levels: map<nat, seq<Pattern>>, p: Pattern): (r: map<nat, seq<Pattern>>)
    ensures r.Keys == levels.Keys + {|p.items|}
    ensures r[|p.items|] == Bucket(levels, |p.items|) + [p]
    ensures forall k :: k in levels && k != |p.items| ==> r[k] == levels[k]
  {
    levels[|p.items| := Bucket(levels, |p.items|) + [p]]
  }

  /** The collection of found itemsets, one list per itemset length. */
  class Itemsets {
    const name: string
    var levels: map<nat, seq<Pattern>>

    constructor (name: string)
      ensures this.name == name && levels == map[]
    {
      this.name := name;
      levels := map[];
    }

    /** `add_itemset`: appends to the list for the itemset's length. */
    method AddItemset(itemset: Pattern)
      modifies this`levels
      ensures levels == Appended(old(levels), itemset)
    {
      levels := levels[|itemset.items| := Bucket(levels, |itemset.items|) + [itemset]];
    }
  }

  // ---------------------------------------------------------------------------
  // Dataset

  /** Some largest element of a non-empty set (ghost witness for `MaxOf`). */
  ghost function AnyMax(s: set<int>): (m: int)
    requires s != {}
    ensures m in s && forall y :: y in s ==> y <= m
    decreases |s|
  {
    NonEmpty(s);
    var x :| x in s;
    if s == {x} then x
    else
      var m := AnyMax(s - {x});
      assert forall y :: y in s ==> y == x || y in s - {x};
      if x < m then m else x
  }

  /** The largest item of a non-empty set (Python's `max`). */
  function MaxOf(s: set<int>): (m: int)
    requires s != {}
    ensures m in s && forall y :: y in s ==> y <= m
  {
    var w := AnyMax(s);
    var x :| x in s && forall y :: y in s ==> y <= x; x
  }

  /** Every item of a transaction occurs in the database. */
  lemma {:induction false} InItemsOf(db: DB, i: nat)
    requires i < |db|
    ensures db[i] <= ItemsOf(db)
  {
    var n := |db| - 1;
    if i < n {
      InItemsOf(db[..n], i);
      assert db[..n][i] == db[i];
    }
  }

  /**
   * `num_items`: one more than the largest item, or nothing when the database holds no item at all
   * (where `max` of the empty set raises).
   */
  method NumItems(db: DB) returns (r: Option<int>)
    ensures r.None? <==> ItemsOf(db) == {}
    ensures r.Some? ==> r.value - 1 in ItemsOf(db) && forall a :: a in ItemsOf(db) ==> a < r.value
  {
    var allItems: set<int> := {};
    for i := 0 to |db|
      invariant allItems == ItemsOf(db[..i])
    {
      assert db[..i + 1][..i] == db[..i];
      allItems := allItems + db[i];
    }
    assert db[..|db|] == db;
    if allItems == {} {
      r := None;
    } else {
      r := Some(MaxOf(allItems) + 1);
    }
  }

  /** How many values `range(n)` yields. */
  function RangeEnd(n: int): (r: nat)
    ensures n <= 0 ==> r == 0
    ensures 0 <= n ==> r == n
  {
    if n < 0 then 0 else n
  }

  /** The bound of the item loop of `run_algorithm`: `range(num_items())` on the whole database. */
  ghost function Bound(db: DB): nat
  {
    if ItemsOf(db) == {} then 0 else RangeEnd(AnyMax(ItemsOf(db)) + 1)
  }

  /** `project_database`: the transactions holding every item of `itemset`, unchanged and in order. */
  method ProjectDatabase(db: DB, itemset: seq<int>) returns (projected: DB)
    ensures projected == Covering(db, Elems(itemset))
  {
    projected := [];
    for i := 0 to |db|
      invariant projected == Covering(db[..i], Elems(itemset))
    {
      assert db[..i + 1][..i] == db[..i];
      if ContainsAll(db[i], itemset) {
        projected := projected + [db[i]];
      }
    }
    assert db[..|db|] == db;
  }

  /** A transaction holding `y` makes its support positive. */
  lemma {:induction false} SupportPositive(db: DB, y: set<int>, i: nat)
    requires i < |db| && y <= db[i]
    ensures 0 < Support(db, y)
  {
    var n := |db| - 1;
    if i < n {
      assert db[..n][i] == db[i];
      SupportPositive(db[..n], y, i);
    }
  }

  /** A positive support has a transaction holding the itemset. */
  lemma {:induction false} SupportWitness(db: DB, y: set<int>) returns (i: nat)
    requires 0 < Support(db, y)
    ensures i < |db| && y <= db[i]
  {
    var n := |db| - 1;
    if y <= db[n] {
      i := n;
    } else {
      i := SupportWitness(db[..n], y);
      assert db[..n][i] == db[i];
    }
  }

  /** The empty itemset covers every transaction. */
  lemma {:induction false} CoveringAll(db: DB)
    ensures Covering(db, {}) == db
  {
    if |db| > 0 {
      var n := |db| - 1;
      CoveringAll(db[..n]);
      assert db[..n] + [db[n]] == db;
    }
  }

  /** Projecting a projection on a larger itemset is projecting the database on it. */
  lemma {:induction false} CoveringTwice(db: DB, x: set<int>, y: set<int>)
    requires x <= y
    ensures Covering(Covering(db, x), y) == Covering(db, y)
  {
    if |db| > 0 {
      var n := |db| - 1;
      var c := Covering(db[..n], x);
      CoveringTwice(db[..n], x, y);
      if x <= db[n] {
        assert Covering(db, x) == c + [db[n]];
        assert (c + [db[n]])[..|c|] == c;
      } else {
        assert Covering(db, x) == c;
        assert !(y <= db[n]);
      }
    }
  }

  // ---------------------------------------------------------------------------
  // The closure test

  /**
   * Item `a` witnesses that `x` is not closed in `db` for the given support: it lies outside `x`,
   * some transaction holds `x` and `a`, and adding it keeps the support.  Only items from `0` on are
   * tried, as `range(num_items())` does.
   */
  ghost predicate Absorbs(db: DB, x: set<int>, support: nat, a: int)
  {
    0 <= a && a !in x && 0 < Support(db, x + {a}) && Support(db, x + {a}) == support
  }

  /** `x` is closed in `db`: no item witnesses otherwise. */
  ghost predicate Closed(db: DB, x: set<int>)
  {
    forall a :: !Absorbs(db, x, Support(db, x), a)
  }

  /**
   * `is_closed(itemset, support, dataset)`: false exactly when some item outside the itemset, held
   * by a transaction holding the itemset, gives an extension with the same support.  The only
   * caller passes a non-empty itemset, which keeps `num_items` away from an item-less dataset.
   */
  method IsClosed(itemset: seq<int>, support: nat, dataset: DB) returns (closed: bool)
    requires |itemset| > 0
    ensures closed <==> forall a :: !Absorbs(dataset, Elems(itemset), support, a)
  {
    ghost var x := Elems(itemset);
    for ti := 0 to |dataset|
      invariant forall a :: 0 <= a && a !in x && 0 < Support(dataset[..ti], x + {a}) ==>
        Support(dataset, x + {a}) != support
    {
      assert dataset[..ti + 1][..ti] == dataset[..ti];
      var transaction := dataset[ti];
      if ContainsAll(transaction, itemset) {
        InItemsOf(dataset, ti);
        assert itemset[0] in x;
        var numItems := NumItems(dataset);
        if numItems.None? {
          assert false;
        }
        for item := 0 to RangeEnd(numItems.value)
          invariant forall a :: 0 <= a < item && a !in x && x + {a} <= transaction ==>
            Support(dataset, x + {a}) != support
        {
          if item !in itemset && ContainsAll(transaction, itemset + [item]) {
            var extendedItemset := itemset + [item];
            assert Elems(extendedItemset) == x + {item};
            var extendedSupport := CountSupport(dataset, extendedItemset);
            if extendedSupport == support {
              SupportPositive(dataset, x + {item}, ti);
              assert Absorbs(dataset, x, support, item);
              return false;
            }
          }
        }
      }
      forall a | 0 <= a && a !in x && 0 < Support(dataset[..ti + 1], x + {a})
        ensures Support(dataset, x + {a}) != support
      {
        if x + {a} <= transaction {
          assert a in ItemsOf(dataset);
        }
      }
    }
    assert dataset[..|dataset|] == dataset;
    return true;
  }

  /** Testing closure on the projection of `x` with its support is testing it on the whole database. */
  lemma ClosedCovering(db: DB, x: set<int>)
    ensures (forall a :: !Absorbs(Covering(db, x), x, Support(db, x), a)) <==> Closed(db, x)
  {
    forall a ensures Absorbs(Covering(db, x), x, Support(db, x), a) <==> Absorbs(db, x, Support(db, x), a) {
      CoveringSupport(db, x, x + {a});
      assert x + (x + {a}) == x + {a};
    }
  }

  /**
   * With a positive support, the closure test is the usual definition: every proper superset adding
   * items from `0` on has a smaller support.
   */
  lemma ClosedIffNoEqualSuperset(db: DB, x: set<int>)
    requires 0 < Support(db, x)
    ensures Closed(db, x) <==>
      forall y :: x < y && (forall b :: b in y - x ==> 0 <= b) ==> Support(db, y) < Support(db, x)
  {
    if Closed(db, x) {
      forall y | x < y && (forall b :: b in y - x ==> 0 <= b) ensures Support(db, y) < Support(db, x) {
        ProperHasNew(x, y);
        var a :| a in y && a !in x;
        assert a in y - x;
        SupportAntimonotone(db, x, x + {a});
        SupportAntimonotone(db, x + {a}, y);
        assert !Absorbs(db, x, Support(db, x), a);
      }
    } else {
      var a :| Absorbs(db, x, Support(db, x), a);
      assert x < x + {a} && (forall b :: b in (x + {a}) - x ==> 0 <= b);
    }
  }

  // ---------------------------------------------------------------------------
  // The search space

  /** The itemsets the search builds: ascending, drawn from `range(limit)`. */
  ghost predicate Chain(x: seq<int>, limit: nat)
  {
    StrictlyIncreasing(x) && forall i :: 0 <= i < |x| ==> 0 <= x[i] < limit
  }

  /** The least item that may extend `x`: one past its last item. */
  function Next(x: seq<int>): int
  {
    if |x| == 0 then 0 else x[|x| - 1] + 1
  }

  lemma ChainNext(x: seq<int>, limit: nat)
    requires Chain(x, limit)
    ensures 0 <= Next(x) <= limit
    ensures forall a :: a in x ==> a < Next(x)
  {
    if |x| > 0 {
      assert x[|x| - 1] < limit;
    }
  }

  /** Extending by an item from `Next(x)` on keeps the itemset ascending. */
  lemma ChainSnoc(x: seq<int>, a: int, limit: nat)
    requires Chain(x, limit) && Next(x) <= a < limit
    ensures Chain(x + [a], limit) && Next(x + [a]) == a + 1 && a !in x
    ensures Elems(x + [a]) == Elems(x) + {a}
  {
    ChainNext(x, limit);
  }

  /** An itemset the search builds has at most `limit` items: the depth of the search is bounded. */
  lemma {:induction false} ChainLength(x: seq<int>, limit: nat)
    requires Chain(x, limit)
    ensures |x| <= limit
    decreases limit
  {
    if |x| > 0 {
      var n := |x| - 1;
      var last: nat := x[n];
      assert Chain(x[..n], last);
      ChainLength(x[..n], last);
    }
  }

  /**
   * What `run_algorithm` records over `range(limit)`: a non-empty ascending itemset that meets the
   * threshold and is closed.
   */
  ghost predicate Target(db: DB, minsup: nat, limit: nat, x: seq<int>)
  {
    |x| > 0 && Chain(x, limit) && minsup <= Support(db, Elems(x)) && Closed(db, Elems(x))
  }

  /**
   * From a threshold of one on, the bound of the item loop excludes nothing: the targets are the
   * non-empty ascending frequent closed itemsets over items from `0` on.
   */
  lemma TargetWithoutBound(db: DB, minsup: nat, x: seq<int>)
    requires 1 <= minsup
    ensures Target(db, minsup, Bound(db), x) <==>
      |x| > 0 && StrictlyIncreasing(x) && (forall i :: 0 <= i < |x| ==> 0 <= x[i])
      && minsup <= Support(db, Elems(x)) && Closed(db, Elems(x))
  {
    if |x| > 0 && StrictlyIncreasing(x) && (forall i :: 0 <= i < |x| ==> 0 <= x[i])
      && minsup <= Support(db, Elems(x)) {
      var t := SupportWitness(db, Elems(x));
      InItemsOf(db, t);
      forall i | 0 <= i < |x| ensures x[i] < Bound(db) {
        assert x[i] in ItemsOf(db);
      }
    }
  }

  /** A stack entry: an itemset and the transactions holding it. */
  datatype Entry = Entry(itemset: seq<int>, data: DB)

  /** `e` is what the loop pushes for `x`: `x` plus an item from `Next(x)` on, whose projection is large enough. */
  ghost predicate Child(db: DB, minsup: nat, limit: nat, x: seq<int>, e: Entry)
  {
    |e.itemset| == |x| + 1 && e.itemset[..|x|] == x && Next(x) <= e.itemset[|x|] < limit
    && Chain(e.itemset, limit) && e.data == Covering(db, Elems(e.itemset)) && minsup <= |e.data|
  }

  ghost predicate Pushed(s: seq<Entry>, y: seq<int>)
  {
    exists i :: 0 <= i < |s| && s[i].itemset == y
  }

  /** Some entry of `s` is a prefix of `y`: popping it eventually reaches `y`. */
  ghost predicate Pending(s: seq<Entry>, y: seq<int>)
  {
    exists i :: 0 <= i < |s| && s[i].itemset <= y
  }

  function Pow2(k: nat): (r: nat)
    ensures 1 <= r
  {
    if k == 0 then 1 else 2 * Pow2(k - 1)
  }

  /** The number of itemsets the search can still reach from an entry for `x`. */
  function Weight(x: seq<int>, limit: nat): nat
  {
    if 0 <= Next(x) <= limit then Pow2(limit - Next(x)) else 0
  }

  function Total(s: seq<Entry>, limit: nat): nat
  {
    if |s| == 0 then 0 else Total(s[..|s| - 1], limit) + Weight(s[|s| - 1].itemset, limit)
  }

  lemma {:induction false} TotalAppend(a: seq<Entry>, b: seq<Entry>, limit: nat)
    ensures Total(a + b, limit) == Total(a, limit) + Total(b, limit)
  {
    if |b| > 0 {
      var n := |b| - 1;
      assert (a + b)[..|a + b| - 1] == a + b[..n];
      TotalAppend(a, b[..n], limit);
    } else {
      assert a + b == a;
    }
  }

  // ---------------------------------------------------------------------------
  // The invariant of the stack loop

  /** Every entry is an ascending itemset with its projection, and no entry is a prefix of another. */
  ghost predicate Frontier(db: DB, limit: nat, stack: seq<Entry>)
  {
    (forall i :: 0 <= i < |stack| ==>
      Chain(stack[i].itemset, limit) && stack[i].data == Covering(db, Elems(stack[i].itemset)))
    && (forall i, j :: 0 <= i < |stack| && 0 <= j < |stack| && i != j ==> !(stack[i].itemset <= stack[j].itemset))
  }

  /** No entry is a prefix of a recorded itemset: nothing on the stack was popped already. */
  ghost predicate Unreached(stack: seq<Entry>, closed: map<seq<int>, nat>)
  {
    forall i, k :: 0 <= i < |stack| && k in closed ==> !(stack[i].itemset <= k)
  }

  /** Every recorded itemset is a target, with its support. */
  ghost predicate Recorded(db: DB, minsup: nat, limit: nat, closed: map<seq<int>, nat>)
  {
    forall k :: k in closed ==> Target(db, minsup, limit, k) && closed[k] == Support(db, Elems(k))
  }

  /** Every target is recorded or still reachable from the stack. */
  ghost predicate Covered(db: DB, minsup: nat, limit: nat, stack: seq<Entry>, closed: map<seq<int>, nat>)
  {
    forall x :: Target(db, minsup, limit, x) ==> x in closed || Pending(stack, x)
  }

  /** The invariant of the stack loop, on the stack, the record and the levels. */
  ghost predicate Searching(db: DB, minsup: nat, limit: nat, stack: seq<Entry>, closed: map<seq<int>, nat>,
                            levels: map<nat, seq<Pattern>>)
  {
    Frontier(db, limit, stack) && Unreached(stack, closed) && Recorded(db, minsup, limit, closed)
    && Covered(db, minsup, limit, stack, closed) && Mirror(levels, closed)
  }

  /** The record after visiting `x`. */
  ghost function AfterVisit(db: DB, minsup: nat, limit: nat, closed: map<seq<int>, nat>, x: seq<int>)
    : map<seq<int>, nat>
  {
    if Target(db, minsup, limit, x) then closed[x := Support(db, Elems(x))] else closed
  }

  /** The children of `x`, in ascending order of their new item. */
  ghost predicate Children(db: DB, minsup: nat, limit: nat, x: seq<int>, children: seq<Entry>)
  {
    (forall i :: 0 <= i < |children| ==> Child(db, minsup, limit, x, children[i]))
    && (forall i, j :: 0 <= i < j < |children| ==> children[i].itemset[|x|] < children[j].itemset[|x|])
  }

  /** A child of `x` neither extends nor is extended by an itemset unrelated to `x` by prefix. */
  lemma ChildApart(r: seq<int>, x: seq<int>, c: seq<int>)
    requires |c| == |x| + 1 && c[..|x|] == x && !(r <= x) && !(x <= r)
    ensures !(r <= c) && !(c <= r)
  {
  }

  /** Two children of `x` with different new items are not prefixes of each other. */
  lemma SiblingsApart(x: seq<int>, c: seq<int>, d: seq<int>)
    requires |c| == |x| + 1 && |d| == |x| + 1 && c[|x|] != d[|x|]
    ensures !(c <= d)
  {
  }

  lemma FrontierStep(db: DB, minsup: nat, limit: nat, stack: seq<Entry>, children: seq<Entry>)
    requires stack != [] && Frontier(db, limit, stack)
    requires Children(db, minsup, limit, stack[|stack| - 1].itemset, children)
    ensures Frontier(db, limit, stack[..|stack| - 1] + children)
  {
    FrontierEntries(db, minsup, limit, stack, children);
    FrontierApart(db, minsup, limit, stack, children);
  }

  lemma FrontierEntries(db: DB, minsup: nat, limit: nat, stack: seq<Entry>, children: seq<Entry>)
    requires stack != [] && Frontier(db, limit, stack)
    requires Children(db, minsup, limit, stack[|stack| - 1].itemset, children)
    ensures var s := stack[..|stack| - 1] + children;
      forall i :: 0 <= i < |s| ==> Chain(s[i].itemset, limit) && s[i].data == Covering(db, Elems(s[i].itemset))
  {
    var rest := stack[..|stack| - 1];
    var s := rest + children;
    forall i | 0 <= i < |s| ensures Chain(s[i].itemset, limit) && s[i].data == Covering(db, Elems(s[i].itemset)) {
      if i < |rest| {
        assert s[i] == stack[i];
      } else {
        assert s[i] == children[i - |rest|];
      }
    }
  }

  lemma FrontierApart(db: DB, minsup: nat, limit: nat, stack: seq<Entry>, children: seq<Entry>)
    requires stack != [] && Frontier(db, limit, stack)
    requires Children(db, minsup, limit, stack[|stack| - 1].itemset, children)
    ensures var s := stack[..|stack| - 1] + children;
      forall i, j :: 0 <= i < |s| && 0 <= j < |s| && i != j ==> !(s[i].itemset <= s[j].itemset)
  {
    var x := stack[|stack| - 1].itemset;
    var rest := stack[..|stack| - 1];
    var s := rest + children;
    forall i, j | 0 <= i < |s| && 0 <= j < |s| && i != j ensures !(s[i].itemset <= s[j].itemset) {
      if i < |rest| && j < |rest| {
        assert s[i] == stack[i] && s[j] == stack[j];
      } else if i < |rest| {
        assert s[i] == stack[i] && s[j] == children[j - |rest|];
        assert !(stack[i].itemset <= x) && !(x <= stack[i].itemset);
        ChildApart(stack[i].itemset, x, children[j - |rest|].itemset);
      } else if j < |rest| {
        assert s[j] == stack[j] && s[i] == children[i - |rest|];
        assert !(stack[j].itemset <= x) && !(x <= stack[j].itemset);
        ChildApart(stack[j].itemset, x, children[i - |rest|].itemset);
      } else {
        var ci := children[i - |rest|].itemset;
        var cj := children[j - |rest|].itemset;
        assert s[i].itemset == ci && s[j].itemset == cj;
        assert ci[|x|] != cj[|x|];
        SiblingsApart(x, ci, cj);
      }
    }
  }

  lemma UnreachedStep(db: DB, minsup: nat, limit: nat, stack: seq<Entry>, closed: map<seq<int>, nat>,
                      children: seq<Entry>)
    requires stack != [] && Frontier(db, limit, stack) && Unreached(stack, closed)
    requires Children(db, minsup, limit, stack[|stack| - 1].itemset, children)
    ensures Unreached(stack[..|stack| - 1] + children,
                      AfterVisit(db, minsup, limit, closed, stack[|stack| - 1].itemset))
  {
    var x := stack[|stack| - 1].itemset;
    var rest := stack[..|stack| - 1];
    var s := rest + children;
    var closed' := AfterVisit(db, minsup, limit, closed, x);
    forall i, k | 0 <= i < |s| && k in closed' ensures !(s[i].itemset <= k) {
      if i < |rest| {
        assert s[i] == stack[i];
      } else {
        var c := children[i - |rest|].itemset;
        assert s[i].itemset == c;
      }
    }
  }

  /** A target properly extending `x` extends one of the children the item loop considers. */
  lemma ReachChild(db: DB, minsup: nat, limit: nat, x: seq<int>, y: seq<int>) returns (a: int)
    requires Chain(x, limit) && Target(db, minsup, limit, y) && x <= y && x != y
    ensures Next(x) <= a < limit && minsup <= Support(db, Elems(x) + {a}) && x + [a] <= y
  {
    a := y[|x|];
    if |x| > 0 {
      assert x[|x| - 1] == y[|x| - 1] < a;
    }
    assert y[..|x| + 1] == x + [a];
    assert Elems(x) + {a} <= Elems(y) by {
      forall b | b in Elems(x) + {a} ensures b in Elems(y) {
        if b != a {
          var k :| 0 <= k < |x| && x[k] == b;
          assert y[k] == b;
        }
      }
    }
    SupportAntimonotone(db, Elems(x) + {a}, Elems(y));
  }

  lemma CoveredStep(db: DB, minsup: nat, limit: nat, stack: seq<Entry>, closed: map<seq<int>, nat>,
                    children: seq<Entry>)
    requires stack != [] && Frontier(db, limit, stack) && Covered(db, minsup, limit, stack, closed)
    requires var x := stack[|stack| - 1].itemset;
      forall a :: Next(x) <= a < limit && minsup <= Support(db, Elems(x) + {a}) ==> Pushed(children, x + [a])
    ensures Covered(db, minsup, limit, stack[..|stack| - 1] + children,
                    AfterVisit(db, minsup, limit, closed, stack[|stack| - 1].itemset))
  {
    var x := stack[|stack| - 1].itemset;
    var rest := stack[..|stack| - 1];
    var s := rest + children;
    var closed' := AfterVisit(db, minsup, limit, closed, x);
    forall y | Target(db, minsup, limit, y) ensures y in closed' || Pending(s, y) {
      if y !in closed {
        var i :| 0 <= i < |stack| && stack[i].itemset <= y;
        if i < |rest| {
          assert s[i] == stack[i];
        } else if y != x {
          assert stack[i].itemset == x;
          var a := ReachChild(db, minsup, limit, x, y);
          var j :| 0 <= j < |children| && children[j].itemset == x + [a];
          assert s[|rest| + j] == children[j];
        }
      }
    }
  }

  function Max(a: int, b: int): int
  {
    if a < b then b else a
  }

  /** The weight of an entry whose next item is `from`. */
  function Rest(limit: nat, from: int): nat
  {
    if 0 <= from <= limit then Pow2(limit - from) else 0
  }

  /** The item loop of the body has run up to `item`, pushing the children in order. */
  ghost predicate Grown(db: DB, minsup: nat, limit: nat, x: seq<int>, item: int, children: seq<Entry>)
  {
    Children(db, minsup, limit, x, children)
    && (forall i :: 0 <= i < |children| ==> children[i].itemset[|x|] < item)
    && (forall a :: Next(x) <= a < item && minsup <= Support(db, Elems(x) + {a}) ==> Pushed(children, x + [a]))
  }

  lemma GrownPush(db: DB, minsup: nat, limit: nat, x: seq<int>, item: int, children: seq<Entry>, e: Entry)
    requires Chain(x, limit) && Next(x) <= item < limit && Grown(db, minsup, limit, x, item, children)
    requires e.itemset == x + [item] && e.data == Covering(db, Elems(x + [item])) && minsup <= |e.data|
    ensures Grown(db, minsup, limit, x, item + 1, children + [e])
    ensures Total(children + [e], limit) + Rest(limit, Max(item + 1, Next(x)))
      == Total(children, limit) + Rest(limit, Max(item, Next(x)))
  {
    ChainSnoc(x, item, limit);
    assert e.itemset[..|x|] == x;
    ChildrenPush(db, minsup, limit, x, item, children, e);
    PushedPush(db, minsup, x, item, children, e);
    TotalPush(limit, x, item, children, e);
  }

  lemma TotalPush(limit: nat, x: seq<int>, item: int, children: seq<Entry>, e: Entry)
    requires 0 <= Next(x) <= item < limit && e.itemset == x + [item]
    ensures Total(children + [e], limit) + Rest(limit, Max(item + 1, Next(x)))
      == Total(children, limit) + Rest(limit, Max(item, Next(x)))
  {
    var c := children + [e];
    assert c[..|children|] == children;
    assert Total(c, limit) == Total(children, limit) + Weight(e.itemset, limit);
    assert Next(e.itemset) == item + 1;
    assert Weight(e.itemset, limit) == Pow2(limit - (item + 1)) == Rest(limit, Max(item + 1, Next(x)));
    assert Rest(limit, Max(item, Next(x))) == Pow2(limit - item) == 2 * Pow2(limit - (item + 1));
  }

  lemma ChildrenPush(db: DB, minsup: nat, limit: nat, x: seq<int>, item: int, children: seq<Entry>, e: Entry)
    requires Children(db, minsup, limit, x, children) && Child(db, minsup, limit, x, e) && e.itemset[|x|] == item
    requires forall i :: 0 <= i < |children| ==> children[i].itemset[|x|] < item
    ensures Children(db, minsup, limit, x, children + [e])
    ensures forall i :: 0 <= i < |children + [e]| ==> (children + [e])[i].itemset[|x|] < item + 1
  {
    var c := children + [e];
    forall i | 0 <= i < |c| ensures Child(db, minsup, limit, x, c[i]) && c[i].itemset[|x|] <= item {
      if i < |children| {
        assert c[i] == children[i];
      }
    }
    forall i, j | 0 <= i < j < |c| ensures c[i].itemset[|x|] < c[j].itemset[|x|] {
      assert c[i] == children[i];
      if j < |children| {
        assert c[j] == children[j];
      }
    }
  }

  lemma PushedPush(db: DB, minsup: nat, x: seq<int>, item: int, children: seq<Entry>, e: Entry)
    requires e.itemset == x + [item]
    requires forall a :: Next(x) <= a < item && minsup <= Support(db, Elems(x) + {a}) ==> Pushed(children, x + [a])
    ensures forall a :: Next(x) <= a < item + 1 && minsup <= Support(db, Elems(x) + {a}) ==>
      Pushed(children + [e], x + [a])
  {
    var c := children + [e];
    forall a | Next(x) <= a < item + 1 && minsup <= Support(db, Elems(x) + {a}) ensures Pushed(c, x + [a]) {
      if a < item {
        var i :| 0 <= i < |children| && children[i].itemset == x + [a];
        assert c[i] == children[i];
      } else {
        assert c[|children|] == e;
      }
    }
  }

  lemma GrownSkip(db: DB, minsup: nat, limit: nat, x: seq<int>, item: int, children: seq<Entry>)
    requires Chain(x, limit) && Grown(db, minsup, limit, x, item, children)
    requires item < Next(x) || Support(db, Elems(x) + {item}) < minsup
    ensures Grown(db, minsup, limit, x, item + 1, children)
    ensures Rest(limit, Max(item + 1, Next(x))) <= Rest(limit, Max(item, Next(x)))
  {
    ChainNext(x, limit);
  }

  /**
   * One item of the loop of `Extend`, for both outcomes of its tests: an item past the last one gives
   * a sorted key that is not yet recorded, and the children grow by the extension exactly when its
   * projection is large enough, the weight still within bounds.
   */
  lemma ExtendFacts(db: DB, minsup: nat, limit: nat, x: seq<int>, item: nat, children: seq<Entry>,
                    closed: map<seq<int>, nat>)
    requires Chain(x, limit) && item < limit && Grown(db, minsup, limit, x, item, children)
    requires forall k :: k in closed && k != x ==> !(x <= k)
    ensures var y := x + [item];
      var past := item !in x && (|x| == 0 || item > x[|x| - 1]);
      var e := Entry(y, Covering(db, Elems(y)));
      && (past ==> SortedList(Elems(y)) == y && y !in closed && Covering(Covering(db, Elems(x)), Elems(y)) == e.data)
      && (past && minsup <= |e.data| ==>
            Grown(db, minsup, limit, x, item + 1, children + [e])
            && Total(children + [e], limit) + Rest(limit, Max(item + 1, Next(x)))
               == Total(children, limit) + Rest(limit, Max(item, Next(x))))
      && (!(past && minsup <= |e.data|) ==>
            Grown(db, minsup, limit, x, item + 1, children)
            && Rest(limit, Max(item + 1, Next(x))) <= Rest(limit, Max(item, Next(x))))
  {
    var y := x + [item];
    ChainNext(x, limit);
    if item !in x && (|x| == 0 || item > x[|x| - 1]) {
      ChainSnoc(x, item, limit);
      SortedIsIdentity(y);
      assert x <= y;
      CoveringTwice(db, Elems(x), Elems(y));
      if minsup <= |Covering(db, Elems(y))| {
        GrownPush(db, minsup, limit, x, item, children, Entry(y, Covering(db, Elems(y))));
      } else {
        GrownSkip(db, minsup, limit, x, item, children);
      }
    } else {
      GrownSkip(db, minsup, limit, x, item, children);
    }
  }

  /** Nothing recorded after visiting the top entry extends it, except itself. */
  lemma PoppedFresh(db: DB, minsup: nat, limit: nat, stack: seq<Entry>, closed: map<seq<int>, nat>)
    requires stack != [] && Unreached(stack, closed)
    ensures var x := stack[|stack| - 1].itemset;
      forall k :: k in AfterVisit(db, minsup, limit, closed, x) && k != x ==> !(x <= k)
  {
  }

  /**
   * One iteration keeps the search invariant: the top entry is visited, its children replace it, and
   * the weight of the stack drops.
   */
  lemma SearchStep(db: DB, minsup: nat, limit: nat, stack: seq<Entry>, closed: map<seq<int>, nat>,
                   levels: map<nat, seq<Pattern>>, children: seq<Entry>)
    requires stack != [] && Searching(db, minsup, limit, stack, closed, levels)
    requires var x := stack[|stack| - 1].itemset;
      && Children(db, minsup, limit, x, children)
      && (forall a :: Next(x) <= a < limit && minsup <= Support(db, Elems(x) + {a}) ==> Pushed(children, x + [a]))
      && Total(children, limit) < Weight(x, limit)
    ensures var x := stack[|stack| - 1].itemset;
      Searching(db, minsup, limit, stack[..|stack| - 1] + children, AfterVisit(db, minsup, limit, closed, x),
        if Target(db, minsup, limit, x) then Appended(levels, Pattern(x, Support(db, Elems(x)))) else levels)
    ensures Total(stack[..|stack| - 1] + children, limit) < Total(stack, limit)
  {
    var x := stack[|stack| - 1].itemset;
    if Target(db, minsup, limit, x) {
      assert x <= x;
      MirrorAdd(levels, closed, Pattern(x, Support(db, Elems(x))));
    }
    FrontierStep(db, minsup, limit, stack, children);
    UnreachedStep(db, minsup, limit, stack, closed, children);
    CoveredStep(db, minsup, limit, stack, closed, children);
    TotalStep(limit, stack, children);
  }

  lemma TotalStep(limit: nat, stack: seq<Entry>, children: seq<Entry>)
    requires stack != [] && Total(children, limit) < Weight(stack[|stack| - 1].itemset, limit)
    ensures Total(stack[..|stack| - 1] + children, limit) < Total(stack, limit)
  {
    TotalAppend(stack[..|stack| - 1], children, limit);
  }

  // ---------------------------------------------------------------------------
  // The levels mirror the record

  /** `s` lists an itemset with items `k`. */
  ghost predicate InLevel(s: seq<Pattern>, k: seq<int>)
  {
    exists m :: 0 <= m < |s| && s[m].items == k
  }

  /** Every listed itemset is recorded, with the same support, in the list for its length. */
  ghost predicate Filed(levels: map<nat, seq<Pattern>>, closed: map<seq<int>, nat>)
  {
    forall l, m :: l in levels && 0 <= m < |levels[l]| ==>
      |levels[l][m].items| == l && levels[l][m].items in closed && closed[levels[l][m].items] == levels[l][m].support
  }

  /** Every recorded itemset is listed in the list for its length. */
  ghost predicate Indexed(levels: map<nat, seq<Pattern>>, closed: map<seq<int>, nat>)
  {
    forall k :: k in closed ==> InLevel(Bucket(levels, |k|), k)
  }

  /** No list repeats an itemset. */
  ghost predicate Unrepeated(levels: map<nat, seq<Pattern>>)
  {
    forall l, m, m' :: l in levels && 0 <= m < m' < |levels[l]| ==> levels[l][m].items != levels[l][m'].items
  }

  /**
   * The levels hold exactly the recorded itemsets with their supports, each in the list for its
   * length, each once.
   */
  ghost predicate Mirror(levels: map<nat, seq<Pattern>>, closed: map<seq<int>, nat>)
  {
    Filed(levels, closed) && Indexed(levels, closed) && Unrepeated(levels)
  }

  lemma FiledAdd(levels: map<nat, seq<Pattern>>, closed: map<seq<int>, nat>, p: Pattern)
    requires Filed(levels, closed) && p.items !in closed
    ensures Filed(Appended(levels, p), closed[p.items := p.support])
  {
    var r: map<nat, seq<Pattern>> := Appended(levels, p);
    var n := |p.items|;
    forall l, m | l in r && 0 <= m < |r[l]| && l == n && m < |r[l]| - 1 ensures r[l][m] == levels[l][m] {
      assert r[n] == Bucket(levels, n) + [p];
    }
  }

  lemma IndexedAdd(levels: map<nat, seq<Pattern>>, closed: map<seq<int>, nat>, p: Pattern)
    requires Indexed(levels, closed)
    ensures Indexed(Appended(levels, p), closed[p.items := p.support])
  {
    var r: map<nat, seq<Pattern>> := Appended(levels, p);
    var n := |p.items|;
    forall k | k in closed[p.items := p.support] ensures InLevel(Bucket(r, |k|), k) {
      if k == p.items {
        assert r[n][|r[n]| - 1] == p;
      } else {
        var m :| 0 <= m < |Bucket(levels, |k|)| && Bucket(levels, |k|)[m].items == k;
        if |k| == n {
          assert r[n][m] == Bucket(levels, n)[m];
        }
      }
    }
  }

  lemma UnrepeatedAdd(levels: map<nat, seq<Pattern>>, closed: map<seq<int>, nat>, p: Pattern)
    requires Filed(levels, closed) && Unrepeated(levels) && p.items !in closed
    ensures Unrepeated(Appended(levels, p))
  {
    var r: map<nat, seq<Pattern>> := Appended(levels, p);
    var n := |p.items|;
    forall l, m, m' | l in r && 0 <= m < m' < |r[l]| && l == n ensures r[l][m].items != r[l][m'].items {
      assert r[n] == Bucket(levels, n) + [p];
      assert r[l][m] == levels[l][m];
      if m' < |r[l]| - 1 {
        assert r[l][m'] == levels[l][m'];
      }
    }
  }

  lemma MirrorAdd(levels: map<nat, seq<Pattern>>, closed: map<seq<int>, nat>, p: Pattern)
    requires Mirror(levels, closed) && p.items !in closed
    ensures Mirror(Appended(levels, p), closed[p.items := p.support])
  {
    FiledAdd(levels, closed, p);
    IndexedAdd(levels, closed, p);
    UnrepeatedAdd(levels, closed, p);
  }

  // ---------------------------------------------------------------------------
  // The algorithm

  /** `AlgoLCM`: the threshold, the database, the levelled result and the record of closed itemsets. */
  class AlgoLCM {
    const minsup: nat
    const dataset: DB
    const frequentItemsets: Itemsets
    var closedItemsets: map<seq<int>, nat>

    constructor (minsup: nat, dataset: DB)
      ensures this.minsup == minsup && this.dataset == dataset
      ensures fresh(frequentItemsets) && frequentItemsets.levels == map[] && closedItemsets == map[]
    {
      this.minsup := minsup;
      this.dataset := dataset;
      frequentItemsets := new Itemsets("FREQUENT ITEMSETS");
      closedItemsets := map[];
    }

    /**
     * The head of the loop body on a popped entry: a non-empty itemset is counted on its projection,
     * and recorded in both collections when it meets the threshold and passes `is_closed`.
     */
    method Visit(itemset: seq<int>, currentDataset: DB, ghost limit: nat)
      requires Chain(itemset, limit) && currentDataset == Covering(dataset, Elems(itemset))
      modifies frequentItemsets`levels, this`closedItemsets
      ensures closedItemsets == AfterVisit(dataset, minsup, limit, old(closedItemsets), itemset)
      ensures frequentItemsets.levels ==
        if Target(dataset, minsup, limit, itemset)
        then Appended(old(frequentItemsets.levels), Pattern(itemset, Support(dataset, Elems(itemset))))
        else old(frequentItemsets.levels)
    {
      if |itemset| > 0 {
        var support := CountSupport(currentDataset, itemset);
        CoveringSupport(dataset, Elems(itemset), Elems(itemset));
        assert Elems(itemset) + Elems(itemset) == Elems(itemset);
        if support >= minsup {
          var isClosed := IsClosed(itemset, support, currentDataset);
          ClosedCovering(dataset, Elems(itemset));
          if isClosed {
            var itemsetObj := MakeItemset(itemset, support);
            frequentItemsets.AddItemset(itemsetObj);
            SortedIsIdentity(itemset);
            closedItemsets := closedItemsets[SortedList(Elems(itemset)) := support];
          }
        }
      }
    }

    /**
     * The item loop of the body: pushes `itemset + [item]` for every item of `range(limit)` past the
     * last one whose projection holds at least `minsup` transactions.  The test against
     * `closed_itemsets` never fails: nothing extending a popped itemset was recorded before it.
     */
    method Extend(itemset: seq<int>, currentDataset: DB, limit: nat) returns (children: seq<Entry>)
      requires Chain(itemset, limit) && currentDataset == Covering(dataset, Elems(itemset))
      requires forall k :: k in closedItemsets && k != itemset ==> !(itemset <= k)
      ensures Children(dataset, minsup, limit, itemset, children)
      ensures forall a :: Next(itemset) <= a < limit && minsup <= Support(dataset, Elems(itemset) + {a}) ==>
        Pushed(children, itemset + [a])
      ensures Total(children, limit) < Weight(itemset, limit)
    {
      ChainNext(itemset, limit);
      children := [];
      for item := 0 to limit
        invariant Grown(dataset, minsup, limit, itemset, item, children)
        invariant Total(children, limit) + Rest(limit, Max(item, Next(itemset))) <= Weight(itemset, limit)
      {
        children := ExtendItem(itemset, currentDataset, limit, item, children);
      }
    }

    /**
     * One item of the loop of `Extend`: `itemset + [item]` is pushed exactly when the item is past the
     * last one and the projection holds at least `minsup` transactions.
     */
    method ExtendItem(itemset: seq<int>, currentDataset: DB, limit: nat, item: nat, children: seq<Entry>)
      returns (children': seq<Entry>)
      requires Chain(itemset, limit) && currentDataset == Covering(dataset, Elems(itemset)) && item < limit
      requires forall k :: k in closedItemsets && k != itemset ==> !(itemset <= k)
      requires Grown(dataset, minsup, limit, itemset, item, children)
      ensures Grown(dataset, minsup, limit, itemset, item + 1, children')
      ensures Total(children', limit) + Rest(limit, Max(item + 1, Next(itemset)))
        <= Total(children, limit) + Rest(limit, Max(item, Next(itemset)))
    {
      ExtendFacts(dataset, minsup, limit, itemset, item, children, closedItemsets);
      children' := children;
      if item !in itemset && (|itemset| == 0 || item > itemset[|itemset| - 1]) {
        var newItemset := itemset + [item];
        var key := SortedList(Elems(newItemset));
        if key !in closedItemsets {
          var newDataset := ProjectDatabase(currentDataset, newItemset);
          if |newDataset| >= minsup {
            children' := children + [Entry(newItemset, newDataset)];
          }
        } else {
          assert false;
        }
      }
    }

    /**
     * One iteration of the loop of `run_algorithm`: pops the top entry, visits it, and pushes its
     * children.  It raises (here: reports failure, changing nothing) when `num_items` finds no item.
     * The search invariant is kept and the weight of the stack drops.
     */
    method Pop(stack: seq<Entry>, ghost limit: nat) returns (stack': seq<Entry>, failed: bool)
      requires stack != [] && limit == Bound(dataset)
      requires Searching(dataset, minsup, limit, stack, closedItemsets, frequentItemsets.levels)
      requires ItemsOf(dataset) == {} ==>
        stack == [Entry([], dataset)] && closedItemsets == map[] && frequentItemsets.levels == map[]
      modifies frequentItemsets`levels, this`closedItemsets
      ensures failed <==> ItemsOf(dataset) == {}
      ensures failed ==> closedItemsets == map[] && frequentItemsets.levels == map[]
      ensures !failed ==> Searching(dataset, minsup, limit, stack', closedItemsets, frequentItemsets.levels)
      ensures !failed ==> Total(stack', limit) < Total(stack, limit)
    {
      var top := stack[|stack| - 1];
      stack' := stack[..|stack| - 1];
      var itemset, currentDataset := top.itemset, top.data;
      ghost var before, levels := closedItemsets, frequentItemsets.levels;
      PoppedFresh(dataset, minsup, limit, stack, before);
      Visit(itemset, currentDataset, limit);
      var numItems := NumItems(dataset);
      if numItems.None? {
        return stack', true;
      }
      var limit' := RangeEnd(numItems.value);
      assert limit' == limit;
      var children := Extend(itemset, currentDataset, limit');
      SearchStep(dataset, minsup, limit, stack, before, levels, children);
      stack' := stack' + children;
      failed := false;
    }

    /**
     * `run_algorithm` without the timing, memory logging and printing, on a newly constructed object.
     * It raises (here: returns false, changing nothing) when the database holds no item.  Otherwise
     * the stack search ends, and `closed_itemsets` maps exactly the non-empty ascending itemsets over
     * `range(num_items())` that meet `minsup` and are closed, each to its support; the levels list
     * each of them once, in the list for its length.
     */
    method RunAlgorithm() returns (completed: bool)
      requires frequentItemsets.levels == map[] && closedItemsets == map[]
      modifies frequentItemsets`levels, this`closedItemsets
      ensures completed <==> ItemsOf(dataset) != {}
      ensures !completed ==> frequentItemsets.levels == map[] && closedItemsets == map[]
      ensures completed ==> forall x :: x in closedItemsets <==> Target(dataset, minsup, Bound(dataset), x)
      ensures completed ==> forall x :: x in closedItemsets ==> closedItemsets[x] == Support(dataset, Elems(x))
      ensures completed ==> Mirror(frequentItemsets.levels, closedItemsets)
    {
      ghost var limit := Bound(dataset);
      CoveringAll(dataset);
      var stack := [Entry([], dataset)];
      assert Elems([]) == {};
      forall x ensures Pending(stack, x) {
        assert stack[0].itemset <= x;
      }
      while stack != []
        invariant Searching(dataset, minsup, limit, stack, closedItemsets, frequentItemsets.levels)
        invariant ItemsOf(dataset) == {} ==>
          stack == [Entry([], dataset)] && closedItemsets == map[] && frequentItemsets.levels == map[]
        decreases Total(stack, limit)
      {
        var failed;
        stack, failed := Pop(stack, limit);
        if failed {
          return false;
        }
      }
      assert Recorded(dataset, minsup, limit, closedItemsets);
      assert Covered(dataset, minsup, limit, stack, closedItemsets);
      return true;
    }
  }
}
