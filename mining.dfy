/**
 * The vocabulary shared by all the miners: a transaction database, the support
 * of an itemset, tid-sets, projected databases, and the shape of a reported
 * pattern.  Every algorithm module states its results in these terms.
 */
module Mining {

  /** A transaction database: transactions in their input order, each a set of items. */
  type DB = seq<set<int>>

  /** An itemset as an algorithm reports it: its items in discovery order and its recorded support. */
  datatype Pattern = Pattern(items: seq<int>, support: nat)

  /** The items of a list, as a set. */
  function Elems(s: seq<int>): set<int>
  {
    set x | x in s
  }

  /** The number of transactions of `db` that contain every item of `x`. */
  function Support(db: DB, x: set<int>): (r: nat)
    ensures r <= |db|
  {
    if |db| == 0 then 0
    else Support(db[..|db| - 1], x) + (if x <= db[|db| - 1] then 1 else 0)
  }

  /** The indices of the transactions that contain every item of `x`. */
  function TidSet(db: DB, x: set<int>): (r: set<nat>)
    ensures forall i :: i in r ==> i < |db|
  {
    if |db| == 0 then {}
    else TidSet(db[..|db| - 1], x) + (if x <= db[|db| - 1] then {|db| - 1} else {})
  }

  /** Every item occurring in some transaction. */
  function ItemsOf(db: DB): set<int>
  {
    if |db| == 0 then {} else ItemsOf(db[..|db| - 1]) + db[|db| - 1]
  }

  /**
   * `math.ceil(n * ratio)` for a ratio `num / den`: the least count that is at least the given
   * fraction of `n` transactions.
   */
  function CeilRatio(n: nat, num: nat, den: nat): (r: nat)
    requires den > 0
    ensures n * num <= r * den < n * num + den
  {
    var q := (n * num + den - 1) / den;
    assert n * num + den - 1 == q * den + (n * num + den - 1) % den;
    q
  }

  /** A positive denominator. */
  type Pos = n: nat | 0 < n witness 1

  /**
   * The ratio test `count / n >= num / den` (or `count >= num / den * n`), written without division:
   * it holds exactly when the count reaches `ceil(n * num / den)`.
   */
  lemma MeetsRatio(count: nat, n: nat, num: nat, den: nat)
    requires den > 0
    ensures count * den >= num * n <==> CeilRatio(n, num, den) <= count
  {
    var r := CeilRatio(n, num, den);
    assert num * n == n * num;
    if r <= count {
      MulMono(r, count, den);
    } else {
      MulMono(count, r - 1, den);
      assert (r - 1) * den == r * den - den;
    }
  }

  lemma MulMono(a: nat, b: nat, c: nat)
    requires a <= b
    ensures a * c <= b * c
  {
  }

  /** Default-zero lookup, as in a counter dictionary. */
  function Get(m: map<int, nat>, k: int): nat
  {
    if k in m then m[k] else 0
  }

  predicate StrictlyIncreasing(s: seq<int>)
  {
    forall i, j :: 0 <= i < j < |s| ==> s[i] < s[j]
  }

  /** `p` is reported with its true support, and that support meets the threshold. */
  ghost predicate Reports(db: DB, minsup: nat, p: Pattern)
  {
    p.support == Support(db, Elems(p.items)) && minsup <= p.support
  }

  /**
   * The threshold a miner that only branches on items present in its rows applies in effect: every
   * such item occurs at least once, so a threshold of zero reports what a threshold of one reports.
   */
  function Effective(minsup: nat): nat
  {
    if minsup == 0 then 1 else minsup
  }

  ghost predicate AllReport(db: DB, minsup: nat, out: seq<Pattern>)
  {
    forall k :: 0 <= k < |out| ==> Reports(db, minsup, out[k])
  }

  /** No itemset occurs twice in `out`, whatever order its items are listed in. */
  ghost predicate DistinctItemsets(out: seq<Pattern>)
  {
    forall j, k :: 0 <= j < k < |out| ==> Elems(out[j].items) != Elems(out[k].items)
  }

  /** The itemset `x` is reported somewhere in `out`. */
  ghost predicate Listed(out: seq<Pattern>, x: set<int>)
  {
    exists k :: 0 <= k < |out| && Elems(out[k].items) == x
  }

  /** Every pattern of `found` is a proper superset of `p` drawn from `p + keys`. */
  ghost predicate Within(found: seq<Pattern>, p: set<int>, keys: set<int>)
  {
    forall k :: 0 <= k < |found| ==> p < Elems(found[k].items) <= p + keys
  }

  /** `x` extends `p` by items of `keys` only, and meets the threshold. */
  ghost predicate FrequentExtension(db: DB, minsup: nat, p: set<int>, keys: set<int>, x: set<int>)
  {
    p < x <= p + keys && minsup <= Support(db, x)
  }

  /** `a` is the least item `x` adds to `p`: the item on which a depth-first miner branched into `x`. */
  ghost predicate LeastNew(x: set<int>, p: set<int>, a: int)
  {
    a in x && a !in p && forall b :: b in x && b !in p ==> a <= b
  }

  /** Every item of `prefix` is below every item of `keys`. */
  predicate Above(prefix: seq<int>, keys: set<int>)
  {
    forall i, b :: 0 <= i < |prefix| && b in keys ==> prefix[i] < b
  }

  /** A proper superset of `p` has a least new item. */
  lemma LeastNewExists(p: set<int>, x: set<int>) returns (a: int)
    requires p < x
    ensures LeastNew(x, p, a)
  {
    ProperHasNew(p, x);
    var b :| b in x && b !in p;
    assert b in x - p;
    a := MinOf(x - p);
    assert forall c :: c in x && c !in p ==> c in x - p;
  }

  /** The last pattern of a list (a placeholder for the empty list). */
  function LastPattern(s: seq<Pattern>): (r: Pattern)
    ensures |s| > 0 ==> r == s[|s| - 1]
  {
    if |s| > 0 then s[|s| - 1] else Pattern([], 0)
  }

  /** Nothing is a proper superset of `p` drawn from `p` alone. */
  lemma WithinNothing(found: seq<Pattern>, p: set<int>)
    requires Within(found, p, {})
    ensures found == []
  {
    var last := LastPattern(found);
    if found != [] {
      assert false;
    }
  }

  lemma ListedLeft(a: seq<Pattern>, b: seq<Pattern>, x: set<int>)
    requires Listed(a, x)
    ensures Listed(a + b, x)
  {
    var k :| 0 <= k < |a| && Elems(a[k].items) == x;
    assert (a + b)[k] == a[k];
  }

  lemma ListedRight(a: seq<Pattern>, b: seq<Pattern>, x: set<int>)
    requires Listed(b, x)
    ensures Listed(a + b, x)
  {
    var k :| 0 <= k < |b| && Elems(b[k].items) == x;
    assert (a + b)[|a| + k] == b[k];
  }

  /** Two duplicate-free lists with no itemset in common concatenate to a duplicate-free list. */
  lemma DistinctAppend(a: seq<Pattern>, b: seq<Pattern>)
    requires DistinctItemsets(a) && DistinctItemsets(b)
    requires forall j, k :: 0 <= j < |a| && 0 <= k < |b| ==> Elems(a[j].items) != Elems(b[k].items)
    ensures DistinctItemsets(a + b)
  {
    var c := a + b;
    forall j, k | 0 <= j < k < |c| ensures Elems(c[j].items) != Elems(c[k].items) {
      if k < |a| {
        assert c[j] == a[j] && c[k] == a[k];
      } else if j < |a| {
        assert c[j] == a[j] && c[k] == b[k - |a|];
      } else {
        assert c[j] == b[j - |a|] && c[k] == b[k - |a|];
      }
    }
  }

  lemma AllReportAppend(db: DB, minsup: nat, a: seq<Pattern>, b: seq<Pattern>)
    requires AllReport(db, minsup, a) && AllReport(db, minsup, b)
    ensures AllReport(db, minsup, a + b)
  {
    var c := a + b;
    forall k | 0 <= k < |c| ensures Reports(db, minsup, c[k]) {
      if k < |a| { assert c[k] == a[k]; } else { assert c[k] == b[k - |a|]; }
    }
  }

  // ---------------------------------------------------------------------------
  // Support and tid-sets

  /** Support is the size of the tid-set. */
  lemma {:induction false} SupportIsTidSetSize(db: DB, x: set<int>)
    ensures Support(db, x) == |TidSet(db, x)|
  {
    if |db| > 0 {
      SupportIsTidSetSize(db[..|db| - 1], x);
    }
  }

  /** A tid is in the tid-set exactly when its transaction contains the itemset. */
  lemma {:induction false} TidSetMember(db: DB, x: set<int>, i: nat)
    ensures i in TidSet(db, x) <==> i < |db| && x <= db[i]
  {
    if |db| > 0 {
      var n := |db| - 1;
      TidSetMember(db[..n], x, i);
      if i < n {
        assert db[..n][i] == db[i];
      }
    }
  }

  /** The tid-set of a union is the intersection of the tid-sets: the identity the vertical miners rely on. */
  lemma {:induction false} TidSetOfUnion(db: DB, x: set<int>, y: set<int>)
    ensures TidSet(db, x + y) == TidSet(db, x) * TidSet(db, y)
  {
    if |db| > 0 {
      TidSetOfUnion(db[..|db| - 1], x, y);
    }
  }

  /** Extending the database by one transaction adds its index to the tid-set when it qualifies. */
  lemma TidSetSnoc(db: DB, i: nat, x: set<int>)
    requires i < |db|
    ensures TidSet(db[..i + 1], x) == TidSet(db[..i], x) + (if x <= db[i] then {i} else {})
  {
    assert db[..i + 1][..i] == db[..i];
  }

  /** A proper superset has an element outside the smaller set. */
  lemma ProperHasNew(p: set<int>, x: set<int>)
    requires p < x
    ensures exists b :: b in x && b !in p
  {
    if forall b :: b in x ==> b in p {
      assert false;
    }
  }

  /** Support is antimonotone: a larger itemset is contained in fewer transactions. */
  lemma {:induction false} SupportAntimonotone(db: DB, x: set<int>, y: set<int>)
    requires x <= y
    ensures Support(db, y) <= Support(db, x)
  {
    if |db| > 0 {
      SupportAntimonotone(db[..|db| - 1], x, y);
    }
  }

  /** Support of a concatenation of databases. */
  lemma {:induction false} SupportAppend(a: DB, b: DB, x: set<int>)
    ensures Support(a + b, x) == Support(a, x) + Support(b, x)
  {
    if |b| > 0 {
      var n := |b| - 1;
      assert (a + b)[..|a + b| - 1] == a + b[..n];
      SupportAppend(a, b[..n], x);
    } else {
      assert a + b == a;
    }
  }

  /** An itemset with an item that occurs nowhere has support zero. */
  lemma {:induction false} SupportOutsideItems(db: DB, x: set<int>, a: int)
    requires a in x && a !in ItemsOf(db)
    ensures Support(db, x) == 0
  {
    if |db| > 0 {
      SupportOutsideItems(db[..|db| - 1], x, a);
    }
  }

  /** An item that occurs nowhere has an empty tid-set. */
  lemma {:induction false} TidSetOutsideItems(db: DB, a: int)
    requires a !in ItemsOf(db)
    ensures TidSet(db, {a}) == {}
  {
    if |db| > 0 {
      TidSetOutsideItems(db[..|db| - 1], a);
    }
  }

  /** Support of the empty itemset is the number of transactions. */
  lemma {:induction false} SupportOfEmpty(db: DB)
    ensures Support(db, {}) == |db|
  {
    if |db| > 0 {
      SupportOfEmpty(db[..|db| - 1]);
    }
  }

  // ---------------------------------------------------------------------------
  // Projections

  /** The transactions containing `a`, each with `a` removed (the horizontal projection). */
  function Project(db: DB, a: int): (r: DB)
    ensures |r| == Support(db, {a})
    ensures forall k :: 0 <= k < |r| ==> a !in r[k]
  {
    if |db| == 0 then []
    else Project(db[..|db| - 1], a) + (if a in db[|db| - 1] then [db[|db| - 1] - {a}] else [])
  }

  /** Counting `x` in the projection on `a` counts `x + {a}` in the database. */
  lemma {:induction false} ProjectSupport(db: DB, a: int, x: set<int>)
    requires a !in x
    ensures Support(Project(db, a), x) == Support(db, x + {a})
  {
    if |db| > 0 {
      var n := |db| - 1;
      ProjectSupport(db[..n], a, x);
      if a in db[n] {
        assert Project(db, a) == Project(db[..n], a) + [db[n] - {a}];
        SupportSnoc(Project(db[..n], a), db[n] - {a}, x);
        assert (x <= db[n] - {a}) == (x + {a} <= db[n]);
      } else {
        assert Project(db, a) == Project(db[..n], a);
        assert !(x + {a} <= db[n]);
      }
    }
  }

  /** An item occurs in the database exactly when its support is positive. */
  lemma {:induction false} Occurs(db: DB, b: int)
    ensures b in ItemsOf(db) <==> 0 < Support(db, {b})
  {
    if |db| > 0 {
      Occurs(db[..|db| - 1], b);
    }
  }

  /**
   * `dataset` is `db` conditioned on `prefix`: counting any itemset `y` disjoint from the prefix in
   * `dataset` counts `prefix + y` in `db`.
   */
  ghost predicate Conditioned(db: DB, prefix: seq<int>, dataset: DB)
  {
    forall y :: y !! Elems(prefix) ==> Support(dataset, y) == Support(db, Elems(prefix) + y)
  }

  lemma RootConditioned(db: DB)
    ensures Conditioned(db, [], db)
  {
    assert Elems([]) == {};
  }

  /** The projection on a new item is the database conditioned on the extended prefix. */
  lemma ProjectConditioned(db: DB, prefix: seq<int>, dataset: DB, a: int)
    requires Conditioned(db, prefix, dataset) && a !in Elems(prefix)
    ensures Conditioned(db, prefix + [a], Project(dataset, a))
  {
    var p := Elems(prefix);
    assert Elems(prefix + [a]) == p + {a};
    forall y | y !! Elems(prefix + [a])
      ensures Support(Project(dataset, a), y) == Support(db, Elems(prefix + [a]) + y)
    {
      ProjectSupport(dataset, a, y);
      assert (y + {a}) !! p;
      assert p + (y + {a}) == Elems(prefix + [a]) + y;
    }
  }

  /** Items of a projection: items of the original except the projected item. */
  lemma {:induction false} ProjectItems(db: DB, a: int)
    ensures ItemsOf(Project(db, a)) <= ItemsOf(db) - {a}
  {
    if |db| > 0 {
      var n := |db| - 1;
      ProjectItems(db[..n], a);
      if a in db[n] {
        assert Project(db, a) == Project(db[..n], a) + [db[n] - {a}];
        ItemsOfSnoc(Project(db[..n], a), db[n] - {a});
      } else {
        assert Project(db, a) == Project(db[..n], a);
      }
    }
  }

  /** Support after appending one transaction. */
  lemma SupportSnoc(db: DB, t: set<int>, x: set<int>)
    ensures Support(db + [t], x) == Support(db, x) + (if x <= t then 1 else 0)
  {
    assert (db + [t])[..|db|] == db;
  }

  /** Items after appending one transaction. */
  lemma ItemsOfSnoc(db: DB, t: set<int>)
    ensures ItemsOf(db + [t]) == ItemsOf(db) + t
  {
    assert (db + [t])[..|db|] == db;
  }

  lemma {:induction false} ItemsOfAppend(a: DB, b: DB)
    ensures ItemsOf(a + b) == ItemsOf(a) + ItemsOf(b)
  {
    if |b| > 0 {
      var n := |b| - 1;
      assert (a + b)[..|a + b| - 1] == a + b[..n];
      ItemsOfAppend(a, b[..n]);
    } else {
      assert a + b == a;
    }
  }

  /** The transactions containing every item of `x`, unchanged and in order. */
  function Covering(db: DB, x: set<int>): (r: DB)
    ensures |r| == Support(db, x)
    ensures forall k :: 0 <= k < |r| ==> x <= r[k]
  {
    if |db| == 0 then []
    else Covering(db[..|db| - 1], x) + (if x <= db[|db| - 1] then [db[|db| - 1]] else [])
  }

  /** Counting `y` among the transactions covering `x` counts `x + y` in the database. */
  lemma {:induction false} CoveringSupport(db: DB, x: set<int>, y: set<int>)
    ensures Support(Covering(db, x), y) == Support(db, x + y)
  {
    if |db| > 0 {
      var n := |db| - 1;
      CoveringSupport(db[..n], x, y);
      if x <= db[n] {
        assert Covering(db, x) == Covering(db[..n], x) + [db[n]];
        SupportSnoc(Covering(db[..n], x), db[n], y);
        assert (y <= db[n]) == (x + y <= db[n]);
      } else {
        assert Covering(db, x) == Covering(db[..n], x);
        assert !(x + y <= db[n]);
      }
    }
  }

  // ---------------------------------------------------------------------------
  // Counting loops shared by the horizontal miners

  /** Whether a transaction holds every item of `itemset` (the containment test of the horizontal scans). */
  function ContainsAll(transaction: set<int>, itemset: seq<int>): (r: bool)
    ensures r <==> Elems(itemset) <= transaction
  {
    if |itemset| == 0 then true
    else itemset[0] in transaction && ContainsAll(transaction, itemset[1..])
  }

  /** The counting scan: how many transactions contain every item of `itemset`. */
  method CountSupport(db: DB, itemset: seq<int>) returns (count: nat)
    ensures count == Support(db, Elems(itemset))
  {
    count := 0;
    for i := 0 to |db|
      invariant count == Support(db[..i], Elems(itemset))
    {
      assert db[..i + 1][..i] == db[..i];
      if ContainsAll(db[i], itemset) {
        count := count + 1;
      }
    }
    assert db[..|db|] == db;
  }

  /** The per-item counter: every item occurring in `db`, with its number of transactions. */
  method CountItems(db: DB) returns (counts: map<int, nat>)
    ensures counts.Keys == ItemsOf(db)
    ensures forall a :: a in counts ==> counts[a] == Support(db, {a})
  {
    counts := map[];
    for i := 0 to |db|
      invariant counts.Keys == ItemsOf(db[..i])
      invariant forall a :: a in counts ==> counts[a] == Support(db[..i], {a})
    {
      assert db[..i + 1][..i] == db[..i];
      var rest := db[i];
      while rest != {}
        invariant rest <= db[i]
        invariant counts.Keys == ItemsOf(db[..i]) + (db[i] - rest)
        invariant forall a :: a in counts ==> counts[a] == Support(db[..i], {a}) + (if a in db[i] - rest then 1 else 0)
        decreases rest
      {
        NonEmpty(rest);
        var a :| a in rest;
        if a !in ItemsOf(db[..i]) {
          SupportOutsideItems(db[..i], {a}, a);
        }
        counts := counts[a := Get(counts, a) + 1];
        rest := rest - {a};
      }
    }
    assert db[..|db|] == db;
  }

  // ---------------------------------------------------------------------------
  // Sets and sorted lists

  /** A non-empty set has an element (needed to pick one with `:|`). */
  lemma NonEmpty(s: set<int>)
    requires s != {}
    ensures exists z :: z in s
  {
    if forall z :: z !in s {
      assert false;
    }
  }

  /** Some least element of a non-empty set (ghost witness for `MinOf`). */
  ghost function AnyMin(s: set<int>): (m: int)
    requires s != {}
    ensures m in s && forall y :: y in s ==> m <= y
    decreases |s|
  {
    NonEmpty(s);
    var x :| x in s;
    if s == {x} then x
    else
      var m := AnyMin(s - {x});
      assert forall y :: y in s ==> y == x || y in s - {x};
      if x < m then x else m
  }

  /** The least item of a non-empty itemset. */
  function MinOf(s: set<int>): (m: int)
    requires s != {}
    ensures m in s && forall y :: y in s ==> m <= y
  {
    var w := AnyMin(s);
    var x :| x in s && forall y :: y in s ==> x <= y; x
  }

  lemma ConsIncreasing(m: int, rest: seq<int>)
    requires StrictlyIncreasing(rest)
    requires forall y :: y in rest ==> m < y
    ensures StrictlyIncreasing([m] + rest)
  {
    var r := [m] + rest;
    forall i, j | 0 <= i < j < |r| ensures r[i] < r[j] {
      if i == 0 {
        assert r[j] == rest[j - 1] && rest[j - 1] in rest;
      } else {
        assert r[i] == rest[i - 1] && r[j] == rest[j - 1];
      }
    }
  }

  /** The items of `s` listed in ascending order (Python's `sorted` on a set of ints). */
  function SortedList(s: set<int>): (r: seq<int>)
    ensures StrictlyIncreasing(r) && Elems(r) == s && |r| == |s|
    decreases |s|
  {
    if s == {} then []
    else
      var m := MinOf(s);
      var rest := SortedList(s - {m});
      ConsIncreasing(m, rest);
      assert Elems([m] + rest) == s by {
        assert s == {m} + (s - {m});
        assert Elems([m] + rest) == {m} + Elems(rest);
      }
      [m] + rest
  }

  lemma HeadIsLeast(s: seq<int>)
    requires StrictlyIncreasing(s) && |s| > 0
    ensures forall y :: y in Elems(s) ==> s[0] <= y
    ensures Elems(s[1..]) == Elems(s) - {s[0]}
  {
    forall y | y in Elems(s) ensures s[0] <= y {
      var k :| 0 <= k < |s| && s[k] == y;
    }
    forall y | y in Elems(s[1..]) ensures y in Elems(s) - {s[0]} {
      var k :| 0 <= k < |s| - 1 && s[1..][k] == y;
      assert s[k + 1] == y;
    }
    forall y | y in Elems(s) - {s[0]} ensures y in Elems(s[1..]) {
      var k :| 0 <= k < |s| && s[k] == y;
      assert s[1..][k - 1] == y;
    }
  }

  /** The next item of an ascending list is new. */
  lemma NextInOrder(order: seq<int>, i: nat)
    requires StrictlyIncreasing(order) && i < |order|
    ensures order[i] !in Elems(order[..i])
    ensures Elems(order[..i + 1]) == Elems(order[..i]) + {order[i]}
  {
    assert order[..i + 1] == order[..i] + [order[i]];
  }

  /** No item occurs twice in the list. */
  predicate Distinct(s: seq<int>)
  {
    forall i, j :: 0 <= i < j < |s| ==> s[i] != s[j]
  }

  /** The next item of a list without repetitions is new. */
  lemma NextDistinct(s: seq<int>, i: nat)
    requires Distinct(s) && i < |s|
    ensures s[i] !in Elems(s[..i])
    ensures Elems(s[..i + 1]) == Elems(s[..i]) + {s[i]}
  {
    assert s[..i + 1] == s[..i] + [s[i]];
  }

  /** A strictly increasing list is determined by its set of items. */
  lemma {:induction false} IncreasingDetermined(s: seq<int>, t: seq<int>)
    requires StrictlyIncreasing(s) && StrictlyIncreasing(t) && Elems(s) == Elems(t)
    ensures s == t
    decreases |s|
  {
    DistinctCard(s);
    DistinctCard(t);
    if |s| > 0 {
      HeadIsLeast(s);
      HeadIsLeast(t);
      assert s[0] in Elems(s) && t[0] in Elems(t);
      assert s[0] == t[0];
      IncreasingDetermined(s[1..], t[1..]);
      assert s == [s[0]] + s[1..];
      assert t == [t[0]] + t[1..];
    }
  }

  /** A subset is no larger. */
  lemma {:induction false} SubsetCard(a: set<int>, b: set<int>)
    requires a <= b
    ensures |a| <= |b|
  {
    if a != {} {
      NonEmpty(a);
      var x :| x in a;
      SubsetCard(a - {x}, b - {x});
    }
  }

  /** Items listed without repetition have as many elements as the list. */
  lemma {:induction false} DistinctCard(s: seq<int>)
    requires forall i, j :: 0 <= i < j < |s| ==> s[i] != s[j]
    ensures |Elems(s)| == |s|
  {
    if |s| > 0 {
      var n := |s| - 1;
      DistinctCard(s[..n]);
      assert Elems(s) == Elems(s[..n]) + {s[n]};
      assert s[n] !in Elems(s[..n]);
    }
  }

  /** Transactions as lists of items, the form some miners read them in. */
  type Rows = seq<seq<int>>

  /** The transactions of `ts` as sets of items. */
  function Sets(ts: Rows): (r: DB)
    ensures |r| == |ts|
  {
    if |ts| == 0 then [] else Sets(ts[..|ts| - 1]) + [Elems(ts[|ts| - 1])]
  }

  lemma SetsSnoc(ts: Rows, t: seq<int>)
    ensures Sets(ts + [t]) == Sets(ts) + [Elems(t)]
  {
    assert (ts + [t])[..|ts|] == ts;
  }
}
