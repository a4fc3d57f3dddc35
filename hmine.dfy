/**
 * H-Mine: transactions are lists of items; `get_item_support` maps each item to
 * the transactions holding it, and `hmine` records every item of that map whose
 * list is long enough, projects its transactions onto the larger items and
 * recurses on the map of the projection.
 */
module HMine {
  import opened Mining
  import opened Search

  /** The rows of `ts` holding `a`, in order, each once however often it lists `a`. */
  function Containing(ts: Rows, a: int): (r: Rows)
  {
    if |ts| == 0 then []
    else Containing(ts[..|ts| - 1], a) + (if a in ts[|ts| - 1] then [ts[|ts| - 1]] else [])
  }

  /** `filter(lambda x: x > a, t)`: the items of `t` larger than `a`, in order. */
  function Larger(t: seq<int>, a: int): (r: seq<int>)
    ensures forall b :: b in r <==> b in t && a < b
  {
    if |t| == 0 then []
    else
      assert t == t[..|t| - 1] + [t[|t| - 1]];
      Larger(t[..|t| - 1], a) + (if a < t[|t| - 1] then [t[|t| - 1]] else [])
  }

  /** The projection of a list of rows onto the items larger than `a`, row by row. */
  function Shift(rows: Rows, a: int): (r: Rows)
    ensures |r| == |rows|
  {
    if |rows| == 0 then [] else Shift(rows[..|rows| - 1], a) + [Larger(rows[|rows| - 1], a)]
  }

  /** What `get_item_support` computes: every item of `ts` with the rows holding it. */
  ghost function ItemSupports(ts: Rows): (r: map<int, Rows>)
    ensures r.Keys == ItemsOf(Sets(ts))
  {
    map a | a in ItemsOf(Sets(ts)) :: Containing(ts, a)
  }

  /** The list of rows holding `a` is as long as the support of `{a}`: one entry per transaction. */
  lemma {:induction false} ContainingSize(ts: Rows, a: int)
    ensures |Containing(ts, a)| == Support(Sets(ts), {a})
  {
    if |ts| > 0 {
      var n := |ts| - 1;
      ContainingSize(ts[..n], a);
      assert ts[..n] + [ts[n]] == ts;
      SetsSnoc(ts[..n], ts[n]);
      SupportSnoc(Sets(ts[..n]), Elems(ts[n]), {a});
    }
  }

  /**
   * Counting `y` among the projection onto the items above `a` of the rows holding `a` counts
   * `y + {a}` among all rows, for every `y` of items above `a`.
   */
  lemma {:induction false} ShiftSupport(ts: Rows, a: int, y: set<int>)
    requires forall b :: b in y ==> a < b
    ensures Support(Sets(Shift(Containing(ts, a), a)), y) == Support(Sets(ts), y + {a})
  {
    if |ts| > 0 {
      var n := |ts| - 1;
      var t := ts[n];
      ShiftSupport(ts[..n], a, y);
      assert ts[..n] + [t] == ts;
      SetsSnoc(ts[..n], t);
      SupportSnoc(Sets(ts[..n]), Elems(t), y + {a});
      var c := Containing(ts[..n], a);
      if a in t {
        assert Containing(ts, a) == c + [t];
        ShiftSnoc(c, t, a);
        SupportSnoc(Sets(Shift(c, a)), Elems(Larger(t, a)), y);
        LargerCovers(t, a, y);
      } else {
        assert Containing(ts, a) == c;
        assert !(y + {a} <= Elems(t));
      }
    }
  }

  /** A row holding `a` covers `y + {a}` exactly when its projection above `a` covers `y`. */
  lemma LargerCovers(t: seq<int>, a: int, y: set<int>)
    requires a in t && forall b :: b in y ==> a < b
    ensures (y <= Elems(Larger(t, a))) == (y + {a} <= Elems(t))
  {
    if y <= Elems(Larger(t, a)) {
      forall b | b in y + {a} ensures b in Elems(t) {
        if b != a {
          assert b in Larger(t, a);
        }
      }
    }
    if y + {a} <= Elems(t) {
      forall b | b in y ensures b in Elems(Larger(t, a)) {
        assert b in t;
      }
    }
  }

  /** Projecting one more row adds its projection as one more transaction. */
  lemma ShiftSnoc(c: Rows, t: seq<int>, a: int)
    ensures Sets(Shift(c + [t], a)) == Sets(Shift(c, a)) + [Elems(Larger(t, a))]
  {
    assert (c + [t])[..|c|] == c;
    SetsSnoc(Shift(c, a), Larger(t, a));
  }

  /** Every item of the projection onto the items above `a` is above `a`. */
  lemma {:induction false} ShiftItems(rows: Rows, a: int)
    ensures forall b :: b in ItemsOf(Sets(Shift(rows, a))) ==> a < b
  {
    if |rows| > 0 {
      var n := |rows| - 1;
      ShiftItems(rows[..n], a);
      SetsSnoc(Shift(rows[..n], a), Larger(rows[n], a));
      ItemsOfSnoc(Sets(Shift(rows[..n], a)), Elems(Larger(rows[n], a)));
    }
  }

  /**
   * The rows `ts` are the database conditioned on `prefix`: they hold only items above the prefix,
   * and counting any itemset `y` above the prefix among them counts `prefix + y` in `db`.
   */
  ghost predicate Conditional(db: DB, prefix: seq<int>, ts: Rows)
  {
    && Above(prefix, ItemsOf(Sets(ts)))
    && forall y :: Above(prefix, y) ==> Support(Sets(ts), y) == Support(db, Elems(prefix) + y)
  }

  /** A database is conditioned on the empty prefix. */
  lemma RootConditional(ts: Rows)
    ensures Conditional(Sets(ts), [], ts)
  {
    assert Elems([]) == {};
  }

  /**
   * Projecting the rows holding an item of a conditional database onto the larger items gives
   * the database conditioned on the extended prefix, and its items are larger keys of the rows.
   */
  lemma ProjectConditional(db: DB, prefix: seq<int>, ts: Rows, a: int)
    requires StrictlyIncreasing(prefix) && Conditional(db, prefix, ts) && a in ItemsOf(Sets(ts))
    ensures Conditional(db, prefix + [a], Shift(Containing(ts, a), a))
    ensures forall b :: b in ItemsOf(Sets(Shift(Containing(ts, a), a))) ==> b in ItemsOf(Sets(ts)) && a < b
  {
    ShiftItems(Containing(ts, a), a);
    ShiftedItems(ts, a);
    forall y | Above(prefix + [a], y)
      ensures Support(Sets(Shift(Containing(ts, a), a)), y) == Support(db, Elems(prefix + [a]) + y)
    {
      ProjectOne(db, prefix, ts, a, y);
    }
  }

  /** One itemset above the extended prefix has the same support in the projection as with the prefix in `db`. */
  lemma ProjectOne(db: DB, prefix: seq<int>, ts: Rows, a: int, y: set<int>)
    requires Conditional(db, prefix, ts) && a in ItemsOf(Sets(ts)) && Above(prefix + [a], y)
    ensures Support(Sets(Shift(Containing(ts, a), a)), y) == Support(db, Elems(prefix + [a]) + y)
  {
    assert forall b :: b in y ==> a < b by {
      assert (prefix + [a])[|prefix|] == a;
    }
    ShiftSupport(ts, a, y);
    assert Above(prefix, y + {a});
    assert Elems(prefix + [a]) + y == Elems(prefix) + (y + {a});
  }

  /** The items of the projection are items of the rows. */
  lemma ShiftedItems(ts: Rows, a: int)
    ensures forall b :: b in ItemsOf(Sets(Shift(Containing(ts, a), a))) ==> b in ItemsOf(Sets(ts))
  {
    var q := Shift(Containing(ts, a), a);
    ShiftItems(Containing(ts, a), a);
    forall b | b in ItemsOf(Sets(q)) ensures b in ItemsOf(Sets(ts)) {
      Occurs(Sets(q), b);
      ShiftSupport(ts, a, {b});
      SupportAntimonotone(Sets(ts), {b}, {b} + {a});
      Occurs(Sets(ts), b);
    }
  }

  /** With a positive threshold, every larger key still frequent with `a` is a key of the projection. */
  lemma ChildKeys(db: DB, minsup: nat, prefix: seq<int>, ts: Rows, a: int)
    requires StrictlyIncreasing(prefix) && Conditional(db, prefix, ts) && a in ItemsOf(Sets(ts))
    requires 1 <= minsup
    ensures forall b :: b in ItemsOf(Sets(ts)) && a < b && minsup <= Support(db, Elems(prefix) + {a} + {b}) ==>
      b in ItemsOf(Sets(Shift(Containing(ts, a), a)))
  {
    forall b | b in ItemsOf(Sets(ts)) && a < b && minsup <= Support(db, Elems(prefix) + {a} + {b})
      ensures b in ItemsOf(Sets(Shift(Containing(ts, a), a)))
    {
      ShiftSupport(ts, a, {b});
      assert Above(prefix, {b} + {a});
      assert Elems(prefix) + ({b} + {a}) == Elems(prefix) + {a} + {b};
      Occurs(Sets(Shift(Containing(ts, a), a)), b);
    }
  }

  /** The projection drops `a`, so it has fewer items: the recursion terminates. */
  lemma Shrinks(ts: Rows, a: int)
    requires a in ItemsOf(Sets(ts))
    requires forall b :: b in ItemsOf(Sets(Shift(Containing(ts, a), a))) ==> b in ItemsOf(Sets(ts)) && a < b
    ensures |ItemsOf(Sets(Shift(Containing(ts, a), a)))| < |ItemsOf(Sets(ts))|
  {
    var child := ItemsOf(Sets(Shift(Containing(ts, a), a)));
    var rest := ItemsOf(Sets(ts)) - {a};
    forall b | b in child ensures b in rest {
    }
    SubsetCard(child, rest);
  }

  // ---------------------------------------------------------------------------
  // get_item_support

  /** After the first `i` rows: the map lists, for each item met so far, the rows holding it. */
  ghost predicate Indexed(ts: Rows, i: nat, supports: map<int, Rows>)
    requires i <= |ts|
  {
    && supports.Keys == ItemsOf(Sets(ts[..i]))
    && forall a :: a in supports ==> supports[a] == Containing(ts[..i], a)
  }

  /** Inside row `i`, after its first `j` items, of which `seen` is the set. */
  ghost predicate IndexedPart(ts: Rows, i: nat, j: nat, seen: set<int>, supports: map<int, Rows>)
    requires i < |ts| && j <= |ts[i]|
  {
    && seen == Elems(ts[i][..j])
    && supports.Keys == ItemsOf(Sets(ts[..i])) + seen
    && forall a :: a in supports ==> supports[a] == Containing(ts[..i], a) + (if a in seen then [ts[i]] else [])
  }

  lemma IndexStart(ts: Rows, i: nat, supports: map<int, Rows>)
    requires i < |ts| && Indexed(ts, i, supports)
    ensures IndexedPart(ts, i, 0, {}, supports)
  {
  }

  /** An item met for the first time in row `i` gets the row appended to its list. */
  lemma IndexNew(ts: Rows, i: nat, j: nat, seen: set<int>, supports: map<int, Rows>)
    requires i < |ts| && j < |ts[i]| && IndexedPart(ts, i, j, seen, supports) && ts[i][j] !in seen
    ensures IndexedPart(ts, i, j + 1, seen + {ts[i][j]},
      supports[ts[i][j] := (if ts[i][j] in supports then supports[ts[i][j]] else []) + [ts[i]]])
  {
    ElemsSnoc(ts[i], j);
    FirstMeeting(ts, i, j, seen, supports);
    AppendRow(ts[..i], ts[i], ts[i][j], seen, supports);
  }

  lemma ElemsSnoc(t: seq<int>, j: nat)
    requires j < |t|
    ensures Elems(t[..j + 1]) == Elems(t[..j]) + {t[j]}
  {
    assert t[..j + 1] == t[..j] + [t[j]];
  }

  /** The list of an item not yet met in the current row holds the earlier rows holding it. */
  lemma FirstMeeting(ts: Rows, i: nat, j: nat, seen: set<int>, supports: map<int, Rows>)
    requires i < |ts| && j < |ts[i]| && IndexedPart(ts, i, j, seen, supports) && ts[i][j] !in seen
    ensures (if ts[i][j] in supports then supports[ts[i][j]] else []) == Containing(ts[..i], ts[i][j])
  {
    var a := ts[i][j];
    if a !in supports {
      ContainingSize(ts[..i], a);
      Occurs(Sets(ts[..i]), a);
    }
  }

  /** Appending row `t` to the list of `a` records that `t` holds `a`. */
  lemma AppendRow(done: Rows, t: seq<int>, a: int, seen: set<int>, supports: map<int, Rows>)
    requires a !in seen
    requires supports.Keys == ItemsOf(Sets(done)) + seen
    requires forall b :: b in supports ==> supports[b] == Containing(done, b) + (if b in seen then [t] else [])
    requires (if a in supports then supports[a] else []) == Containing(done, a)
    ensures supports[a := Containing(done, a) + [t]].Keys == ItemsOf(Sets(done)) + (seen + {a})
    ensures forall b :: b in supports[a := Containing(done, a) + [t]] ==>
      supports[a := Containing(done, a) + [t]][b] == Containing(done, b) + (if b in seen + {a} then [t] else [])
  {
  }

  /** An item already met in row `i` changes nothing. */
  lemma IndexSeen(ts: Rows, i: nat, j: nat, seen: set<int>, supports: map<int, Rows>)
    requires i < |ts| && j < |ts[i]| && IndexedPart(ts, i, j, seen, supports) && ts[i][j] in seen
    ensures IndexedPart(ts, i, j + 1, seen, supports)
  {
    assert ts[i][..j + 1] == ts[i][..j] + [ts[i][j]];
  }

  lemma IndexRow(ts: Rows, i: nat, seen: set<int>, supports: map<int, Rows>)
    requires i < |ts| && IndexedPart(ts, i, |ts[i]|, seen, supports)
    ensures Indexed(ts, i + 1, supports)
  {
    assert ts[i][..|ts[i]|] == ts[i];
    assert ts[..i + 1] == ts[..i] + [ts[i]];
    SetsSnoc(ts[..i], ts[i]);
    ItemsOfSnoc(Sets(ts[..i]), Elems(ts[i]));
    forall a | a in supports ensures supports[a] == Containing(ts[..i + 1], a) {
      assert (ts[..i] + [ts[i]])[..i] == ts[..i];
    }
  }

  /**
   * `get_item_support`: for each transaction, each item not yet seen in it appends the transaction to
   * that item's list.  The result maps every item to the transactions holding it, each once.
   */
  method GetItemSupport(ts: Rows) returns (supports: map<int, Rows>)
    ensures supports == ItemSupports(ts)
    ensures forall a :: a in supports ==> |supports[a]| == Support(Sets(ts), {a})
  {
    supports := map[];
    for i := 0 to |ts|
      invariant Indexed(ts, i, supports)
    {
      var transaction := ts[i];
      var seen: set<int> := {};
      IndexStart(ts, i, supports);
      for j := 0 to |transaction|
        invariant IndexedPart(ts, i, j, seen, supports)
      {
        var item := transaction[j];
        if item !in seen {
          IndexNew(ts, i, j, seen, supports);
          supports := supports[item := (if item in supports then supports[item] else []) + [transaction]];
          seen := seen + {item};
        } else {
          IndexSeen(ts, i, j, seen, supports);
        }
      }
      IndexRow(ts, i, seen, supports);
    }
    assert ts[..|ts|] == ts;
    forall a | a in supports ensures |supports[a]| == Support(Sets(ts), {a}) {
      ContainingSize(ts, a);
    }
  }

  // ---------------------------------------------------------------------------

  /**
   * What `hmine` promises about the list it returns for the rows `ts` conditioned on `prefix`, at the
   * threshold `t` it applies in effect: sound, and every frequent extension by the items of the rows.
   */
  ghost predicate Mined(db: DB, t: nat, prefix: seq<int>, ts: Rows, found: seq<Pattern>)
  {
    Sound(db, t, prefix, ItemsOf(Sets(ts)), found) && Complete(db, t, Elems(prefix), ItemsOf(Sets(ts)), found)
  }

  /** The invariant of the loop of `hmine` after branching on the items of `done`. */
  ghost predicate Progress(db: DB, minsup: nat, prefix: seq<int>, keys: set<int>, done: set<int>, found: seq<Pattern>)
  {
    Explored(db, Effective(minsup), prefix, keys, done, found)
  }

  lemma Step(db: DB, minsup: nat, prefix: seq<int>, keys: set<int>, done: set<int>, item: int,
             found: seq<Pattern>, mine: seq<Pattern>)
    requires item !in done
    requires Progress(db, minsup, prefix, keys, done, found) && Branch(db, Effective(minsup), prefix, keys, item, mine)
    ensures Progress(db, minsup, prefix, keys, done + {item}, found + mine)
  {
    ExploreStep(db, Effective(minsup), prefix, keys, done, item, found, mine);
  }

  lemma Start(db: DB, minsup: nat, prefix: seq<int>, keys: set<int>)
    ensures Progress(db, minsup, prefix, keys, {}, [])
  {
  }

  /** The items left out of the loop have lists shorter than the threshold, so the output is complete. */
  lemma Finish(db: DB, minsup: nat, prefix: seq<int>, ts: Rows, valid: set<int>, found: seq<Pattern>)
    requires Conditional(db, prefix, ts)
    requires forall a :: a in ItemsOf(Sets(ts)) && a !in valid ==> |Containing(ts, a)| < minsup
    requires Progress(db, minsup, prefix, ItemsOf(Sets(ts)), valid, found)
    ensures Mined(db, Effective(minsup), prefix, ts, found)
  {
    var keys := ItemsOf(Sets(ts));
    var t := Effective(minsup);
    forall a | a in keys && a !in valid ensures Support(db, Elems(prefix) + {a}) < t {
      ContainingSize(ts, a);
      assert Above(prefix, {a});
    }
    ExploreFiltered(db, t, prefix, keys, valid, found);
  }

  /** The facts the branch of `hmine` on `item` needs about the projection below it. */
  lemma ItemFacts(db: DB, t: nat, prefix: seq<int>, ts: Rows, item: int)
    requires StrictlyIncreasing(prefix) && Conditional(db, prefix, ts) && item in ItemsOf(Sets(ts))
    requires 1 <= t
    ensures Conditional(db, prefix + [item], Shift(Containing(ts, item), item))
    ensures StrictlyIncreasing(prefix + [item]) && Above(prefix, ItemsOf(Sets(ts)))
    ensures forall b :: b in ItemsOf(Sets(Shift(Containing(ts, item), item))) ==> b in ItemsOf(Sets(ts)) && item < b
    ensures forall b :: b in ItemsOf(Sets(ts)) && item < b && t <= Support(db, Elems(prefix) + {item} + {b}) ==>
      b in ItemsOf(Sets(Shift(Containing(ts, item), item)))
    ensures |ItemsOf(Sets(Shift(Containing(ts, item), item)))| < |ItemsOf(Sets(ts))|
    ensures |Containing(ts, item)| == Support(db, Elems(prefix + [item])) && 1 <= |Containing(ts, item)|
  {
    ProjectConditional(db, prefix, ts, item);
    AboveExtend(prefix, ItemsOf(Sets(ts)), item, ItemsOf(Sets(Shift(Containing(ts, item), item))));
    ChildKeys(db, t, prefix, ts, item);
    Shrinks(ts, item);
    ContainingSize(ts, item);
    Occurs(Sets(ts), item);
    assert Above(prefix, {item});
  }

  /**
   * One iteration of the loop of `hmine`, on a valid `item`: records `prefix + [item]` with the length
   * of its list, projects that list onto the larger items and, when the projection is non-empty,
   * appends what `hmine` finds in it.  The item occurs in the rows, so its list is never empty and a
   * threshold of zero acts as one.
   */
  method HMineItem(ghost db: DB, prefix: seq<int>, item: int, supports: Rows, minsup: nat, ghost ts: Rows)
    returns (mine: seq<Pattern>)
    requires StrictlyIncreasing(prefix) && Conditional(db, prefix, ts)
    requires item in ItemsOf(Sets(ts)) && supports == Containing(ts, item) && minsup <= |supports|
    ensures Branch(db, Effective(minsup), prefix, ItemsOf(Sets(ts)), item, mine)
    decreases |ItemsOf(Sets(ts))|, 0
  {
    ghost var keys := ItemsOf(Sets(ts));
    ghost var t := Effective(minsup);
    var currentItemset := prefix + [item];
    var currentSupport := |supports|;
    var head := Pattern(currentItemset, currentSupport);
    mine := [head];
    var projected := Shift(supports, item);
    ItemFacts(db, t, prefix, ts, item);
    var sub: seq<Pattern> := [];
    if |projected| > 0 {
      var projectedSupports := GetItemSupport(projected);
      sub := HMine(db, currentItemset, projectedSupports, minsup, projected);
      mine := mine + sub;
    }
    assert mine == [head] + sub;
    BranchOf(db, t, prefix, keys, item, ItemsOf(Sets(projected)), head, sub);
  }

  /**
   * `hmine(prefix, item_supports, min_support)` on the map of the rows `ts`: branches on the items whose
   * list meets the threshold, in ascending order, and returns what the branches record, in order:
   * exactly the frequent extensions of the prefix by the items of the rows, each once, at the
   * threshold in effect.
   */
  method HMine(ghost db: DB, prefix: seq<int>, itemSupports: map<int, Rows>, minsup: nat, ghost ts: Rows)
    returns (found: seq<Pattern>)
    requires itemSupports == ItemSupports(ts)
    requires StrictlyIncreasing(prefix) && Conditional(db, prefix, ts)
    ensures Mined(db, Effective(minsup), prefix, ts, found)
    decreases |ItemsOf(Sets(ts))|, 1
  {
    ghost var keys := ItemsOf(Sets(ts));
    var validItems := map a | a in itemSupports && |itemSupports[a]| >= minsup :: itemSupports[a];
    var order := SortedList(validItems.Keys);
    found := [];
    ghost var done: set<int> := {};
    Start(db, minsup, prefix, keys);
    for i := 0 to |order|
      invariant done == Elems(order[..i])
      invariant Progress(db, minsup, prefix, keys, done, found)
    {
      var item := order[i];
      NextInOrder(order, i);
      var mine := HMineItem(db, prefix, item, validItems[item], minsup, ts);
      Step(db, minsup, prefix, keys, done, item, found, mine);
      found := found + mine;
      done := done + {item};
    }
    assert order[..|order|] == order;
    Finish(db, minsup, prefix, ts, done, found);
  }

  /**
   * The program run: the threshold is `ceil(|ts| * num / den)`; builds the map of the transactions and
   * mines from the empty prefix.  The result is exactly the itemsets meeting the threshold, or of
   * support at least one when the threshold is zero, each once, increasing and with its true support.
   */
  method RunHMine(ts: Rows, num: nat, den: nat) returns (minsup: nat, found: seq<Pattern>)
    requires den > 0
    ensures minsup == CeilRatio(|ts|, num, den)
    ensures SoundAll(Sets(ts), minsup, found)
    ensures MinedAll(Sets(ts), Effective(minsup), found)
  {
    minsup := CeilRatio(|ts|, num, den);
    var itemSupports := GetItemSupport(ts);
    RootConditional(ts);
    assert StrictlyIncreasing([]);
    found := HMine(Sets(ts), [], itemSupports, minsup, ts);
    FromEmpty(Sets(ts), Effective(minsup), ItemsOf(Sets(ts)), found);
  }
}
