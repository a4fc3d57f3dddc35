/**
 * The node arena of the PrePost prefix tree.  Nodes live in one sequence and
 * name each other by index: node 0 is the root (the node whose item is `None`),
 * every other node names its parent, which has a smaller index, and maps each
 * item to the index of its child for that item.  The header table maps an item
 * to the list of nodes labelled with it.
 *
 * This module holds the shape of such an arena, the paths and ancestors of its
 * nodes, and the sums over header lists from which the miner reads supports.
 */
module PrePostArena {
  import opened Mining

  /** `TreeNode`: its item (meaningless at the root), count, parent, children by item, and numbers. */
  datatype TreeNode = TreeNode(item: int, count: nat, parent: nat, children: map<int, nat>, preorder: int, postorder: int)

  /** `TreeNode(item)` once its parent link is set: count 0, no children, numbers -1. */
  function NewNode(item: int, parent: nat): TreeNode
  {
    TreeNode(item, 0, parent, map[], -1, -1)
  }

  /** The header list of `item`, empty when it has none (the `defaultdict(list)` lookup). */
  function HeaderOf(headers: map<int, seq<nat>>, item: int): seq<nat>
  {
    if item in headers then headers[item] else []
  }

  // ---------------------------------------------------------------------------
  // The tree order

  /**
   * The order of the sort key `(-item_counts[item], item)`: `a` comes before `b` when it is counted
   * more often, or as often and is the smaller item.
   */
  predicate KeyLess(itemCounts: map<int, nat>, a: int, b: int)
  {
    Get(itemCounts, a) > Get(itemCounts, b) || (Get(itemCounts, a) == Get(itemCounts, b) && a < b)
  }

  /** Every item of `y` comes before `i`. */
  ghost predicate Before(itemCounts: map<int, nat>, y: set<int>, i: int)
  {
    forall b :: b in y ==> KeyLess(itemCounts, b, i)
  }

  /** `s` lists its items in the tree order, each once. */
  ghost predicate SortedBy(itemCounts: map<int, nat>, s: seq<int>)
  {
    forall i, j :: 0 <= i < j < |s| ==> KeyLess(itemCounts, s[i], s[j])
  }

  /** A non-empty set has a first item in the tree order. */
  lemma KeyLeast(rest: set<int>, itemCounts: map<int, nat>) returns (m: int)
    requires rest != {}
    ensures m in rest && forall b :: b in rest && b != m ==> KeyLess(itemCounts, m, b)
    decreases |rest|
  {
    NonEmpty(rest);
    var a :| a in rest;
    if rest == {a} {
      m := a;
    } else {
      var n := KeyLeast(rest - {a}, itemCounts);
      if KeyLess(itemCounts, a, n) {
        m := a;
        forall b | b in rest && b != m ensures KeyLess(itemCounts, m, b) {
          if b != n {
            assert KeyLess(itemCounts, n, b);
          }
        }
      } else {
        m := n;
        assert KeyLess(itemCounts, n, a);
      }
    }
  }

  /** A non-empty set has a last item in the tree order. */
  lemma KeyGreatest(rest: set<int>, itemCounts: map<int, nat>) returns (m: int)
    requires rest != {}
    ensures m in rest && forall b :: b in rest && b != m ==> KeyLess(itemCounts, b, m)
    decreases |rest|
  {
    NonEmpty(rest);
    var a :| a in rest;
    if rest == {a} {
      m := a;
    } else {
      var n := KeyGreatest(rest - {a}, itemCounts);
      if KeyLess(itemCounts, n, a) {
        m := a;
        forall b | b in rest && b != m ensures KeyLess(itemCounts, b, m) {
          if b != n {
            assert KeyLess(itemCounts, b, n);
          }
        }
      } else {
        m := n;
        assert KeyLess(itemCounts, a, n);
      }
    }
  }

  /** The next item of a sorted list is not among those before it. */
  lemma SortedNext(itemCounts: map<int, nat>, s: seq<int>, k: nat)
    requires SortedBy(itemCounts, s) && k < |s|
    ensures s[k] !in Elems(s[..k]) && Elems(s[..k + 1]) == Elems(s[..k]) + {s[k]}
  {
    assert s[..k + 1] == s[..k] + [s[k]];
    forall j | 0 <= j < k ensures s[..k][j] != s[k] {
      assert KeyLess(itemCounts, s[j], s[k]);
    }
  }

  /**
   * In a list sorted by the tree order, the items before position `k` are exactly the items of the
   * list that come before `s[k]`: a set of such items lies in the prefix iff it lies in the list.
   */
  lemma SortedPrefix(itemCounts: map<int, nat>, s: seq<int>, k: nat, y: set<int>)
    requires SortedBy(itemCounts, s) && k < |s| && Before(itemCounts, y, s[k])
    ensures y <= Elems(s[..k]) <==> y <= Elems(s)
  {
    if y <= Elems(s) {
      forall b | b in y ensures b in Elems(s[..k]) {
        var j :| 0 <= j < |s| && s[j] == b;
        if j >= k {
          assert false;
        }
        assert s[..k][j] == b;
      }
    }
  }

  // ---------------------------------------------------------------------------
  // Links, paths and the shape of the arena

  /** The root exists and every other node's parent has a smaller index. */
  ghost predicate Linked(nodes: seq<TreeNode>)
  {
    |nodes| >= 1 && forall n :: 0 < n < |nodes| ==> nodes[n].parent < n
  }

  /** The items from the root (excluded) down to `n` (included). */
  ghost function Path(nodes: seq<TreeNode>, n: nat): (r: seq<int>)
    requires Linked(nodes) && n < |nodes|
    ensures |r| == 0 <==> n == 0
    decreases n
  {
    if n == 0 then [] else Path(nodes, nodes[n].parent) + [nodes[n].item]
  }

  /** The items of the proper ancestors of `n`, root excluded: what the conditional base records for it. */
  ghost function Anc(nodes: seq<TreeNode>, n: nat): set<int>
    requires Linked(nodes) && 0 < n < |nodes|
  {
    Elems(Path(nodes, nodes[n].parent))
  }

  /** `after` keeps the nodes of `before`, each with its item and parent, and may add nodes after them. */
  ghost predicate SameLinks(before: seq<TreeNode>, after: seq<TreeNode>)
  {
    |before| <= |after| &&
    forall m :: 0 <= m < |before| ==> after[m].item == before[m].item && after[m].parent == before[m].parent
  }

  /** `after` differs from `before` at most in the counts and numbers of its nodes. */
  ghost predicate SameShape(before: seq<TreeNode>, after: seq<TreeNode>)
  {
    |after| == |before| &&
    forall m :: 0 <= m < |before| ==>
      after[m].item == before[m].item && after[m].parent == before[m].parent && after[m].children == before[m].children
  }

  lemma {:induction false} PathFrame(before: seq<TreeNode>, after: seq<TreeNode>, n: nat)
    requires Linked(before) && Linked(after) && SameLinks(before, after) && n < |before|
    ensures Path(after, n) == Path(before, n)
    decreases n
  {
    if n != 0 {
      PathFrame(before, after, before[n].parent);
    }
  }

  /** The child of `n` for `it` is a later node whose parent is `n` and whose item is `it`. */
  ghost predicate ChildOf(nodes: seq<TreeNode>, n: nat, it: int)
    requires n < |nodes| && it in nodes[n].children
  {
    var c := nodes[n].children[it];
    0 < c < |nodes| && nodes[c].parent == n && nodes[c].item == it
  }

  /** `n.parent.children[n.item] == n`. */
  ghost predicate Registered(nodes: seq<TreeNode>, c: nat)
    requires Linked(nodes) && 0 < c < |nodes|
  {
    var p := nodes[c].parent;
    nodes[c].item in nodes[p].children && nodes[p].children[nodes[c].item] == c
  }

  /**
   * The children maps are keyed by item and agree with the parent links: a node has at most one child
   * per item, and every non-root node is the child of its parent for its own item.
   */
  ghost predicate Keyed(nodes: seq<TreeNode>)
  {
    && Linked(nodes)
    && (forall n, it :: 0 <= n < |nodes| && it in nodes[n].children ==> ChildOf(nodes, n, it))
    && (forall c :: 0 < c < |nodes| ==> Registered(nodes, c))
  }

  /** Along every root path the items come in the tree order. */
  ghost predicate Ordered(nodes: seq<TreeNode>, itemCounts: map<int, nat>)
  {
    Linked(nodes) &&
    forall c :: 0 < c < |nodes| && nodes[c].parent != 0 ==>
      KeyLess(itemCounts, nodes[nodes[c].parent].item, nodes[c].item)
  }

  /** A list of node indices without repetitions. */
  predicate NoDup(s: seq<nat>)
  {
    forall j, k :: 0 <= j < k < |s| ==> s[j] != s[k]
  }

  /** Every index of `s` names a non-root node. */
  predicate InArena(nodes: seq<TreeNode>, s: seq<nat>)
  {
    forall k :: 0 <= k < |s| ==> 0 < s[k] < |nodes|
  }

  /** A non-empty list of distinct non-root nodes, all labelled `i`. */
  ghost predicate HeaderList(nodes: seq<TreeNode>, s: seq<nat>, i: int)
  {
    |s| > 0 && NoDup(s) && InArena(nodes, s) && forall k :: 0 <= k < |s| ==> nodes[s[k]].item == i
  }

  /** `headers[i]` is exactly the nodes labelled `i`, each once. */
  ghost predicate Indexed(nodes: seq<TreeNode>, headers: map<int, seq<nat>>)
  {
    && (forall i :: i in headers ==> HeaderList(nodes, headers[i], i))
    && (forall c :: 0 < c < |nodes| ==> nodes[c].item in headers && c in headers[nodes[c].item])
  }

  /** The shape invariant of a prefix tree. */
  ghost predicate Shaped(nodes: seq<TreeNode>, headers: map<int, seq<nat>>, itemCounts: map<int, nat>)
  {
    Keyed(nodes) && Ordered(nodes, itemCounts) && Indexed(nodes, headers)
  }

  /** Counts and numbers do not enter the shape. */
  lemma ShapedFrame(before: seq<TreeNode>, after: seq<TreeNode>, headers: map<int, seq<nat>>, itemCounts: map<int, nat>)
    requires Shaped(before, headers, itemCounts) && SameShape(before, after)
    ensures Shaped(after, headers, itemCounts)
  {
    forall n, it | 0 <= n < |after| && it in after[n].children ensures ChildOf(after, n, it) {
      assert ChildOf(before, n, it);
    }
    forall c | 0 < c < |after| ensures Registered(after, c) {
      assert Registered(before, c);
    }
    forall i | i in headers ensures HeaderList(after, headers[i], i) {
      assert HeaderList(before, headers[i], i);
    }
  }

  /** The ancestors of a node come before it in the tree order, and it is not among them. */
  lemma {:induction false} AncBefore(nodes: seq<TreeNode>, itemCounts: map<int, nat>, n: nat)
    requires Ordered(nodes, itemCounts) && 0 < n < |nodes|
    ensures Before(itemCounts, Anc(nodes, n), nodes[n].item)
    decreases n
  {
    var p := nodes[n].parent;
    if p != 0 {
      AncBefore(nodes, itemCounts, p);
      assert Anc(nodes, n) == Anc(nodes, p) + {nodes[p].item};
    }
  }

  /** The ancestors of a node are items with header lists. */
  lemma {:induction false} AncIndexed(nodes: seq<TreeNode>, headers: map<int, seq<nat>>, n: nat)
    requires Linked(nodes) && Indexed(nodes, headers) && 0 < n < |nodes|
    ensures Anc(nodes, n) <= headers.Keys
    decreases n
  {
    var p := nodes[n].parent;
    if p != 0 {
      AncIndexed(nodes, headers, p);
      assert Anc(nodes, n) == Anc(nodes, p) + {nodes[p].item};
    }
  }

  // ---------------------------------------------------------------------------
  // Sums over header lists

  /**
   * The sum of the counts of the nodes of `s` whose ancestors include every item of `y`: the number of
   * conditional-base rows of these nodes that contain `y`.  With `y` empty, the sum of their counts.
   */
  ghost function BaseSupport(nodes: seq<TreeNode>, s: seq<nat>, y: set<int>): nat
    requires Linked(nodes) && InArena(nodes, s)
  {
    if |s| == 0 then 0
    else
      var c := s[|s| - 1];
      BaseSupport(nodes, s[..|s| - 1], y) + (if y <= Anc(nodes, c) then nodes[c].count else 0)
  }

  lemma BaseSnoc(nodes: seq<TreeNode>, s: seq<nat>, c: nat, y: set<int>)
    requires Linked(nodes) && InArena(nodes, s) && 0 < c < |nodes|
    ensures InArena(nodes, s + [c])
    ensures BaseSupport(nodes, s + [c], y) == BaseSupport(nodes, s, y) + (if y <= Anc(nodes, c) then nodes[c].count else 0)
  {
    assert (s + [c])[..|s|] == s;
  }

  /** The sums do not move when the listed nodes keep their links and counts. */
  lemma {:induction false} BaseFrame(before: seq<TreeNode>, after: seq<TreeNode>, s: seq<nat>, y: set<int>)
    requires Linked(before) && Linked(after) && SameLinks(before, after) && InArena(before, s)
    requires forall k :: 0 <= k < |s| ==> after[s[k]].count == before[s[k]].count
    ensures InArena(after, s) && BaseSupport(after, s, y) == BaseSupport(before, s, y)
  {
    if |s| > 0 {
      var c := s[|s| - 1];
      BaseFrame(before, after, s[..|s| - 1], y);
      PathFrame(before, after, before[c].parent);
    }
  }

  /** One more on the count of `c` adds one to the sum when `c` is listed and its ancestors hold `y`. */
  lemma {:induction false} BaseBump(before: seq<TreeNode>, c: nat, s: seq<nat>, y: set<int>)
    requires Linked(before) && InArena(before, s) && NoDup(s) && 0 < c < |before|
    ensures Linked(before[c := before[c].(count := before[c].count + 1)])
    ensures BaseSupport(before[c := before[c].(count := before[c].count + 1)], s, y)
      == BaseSupport(before, s, y) + (if c in s && y <= Anc(before, c) then 1 else 0)
  {
    var after := before[c := before[c].(count := before[c].count + 1)];
    assert SameLinks(before, after);
    if |s| > 0 {
      var init := s[..|s| - 1];
      var d := s[|s| - 1];
      assert NoDup(init);
      BaseBump(before, c, init, y);
      PathFrame(before, after, before[d].parent);
      assert s == init + [d];
      if d == c {
        assert c !in init;
      }
    }
  }

  // ---------------------------------------------------------------------------
  // What the header sums count

  /**
   * The header sums count the database: every item of the tree has a header list and, for every set
   * `y` of items before `i`, the nodes of `i` whose ancestors hold `y` count together the transactions
   * holding `y` and `i`, plus one for the transaction being inserted (`t`) once `i` is `bumped`.
   */
  ghost predicate Counting(nodes: seq<TreeNode>, headers: map<int, seq<nat>>, itemCounts: map<int, nat>, db: DB,
                           t: set<int>, added: set<int>, bumped: set<int>)
  {
    && Linked(nodes) && Indexed(nodes, headers)
    && headers.Keys == ItemsOf(db) + added
    && forall i, y :: i in headers && Before(itemCounts, y, i) ==>
         BaseSupport(nodes, headers[i], y) == Support(db, y + {i}) + (if i in bumped && y <= t then 1 else 0)
  }

  /** The tree holds the transactions of `db`: its header sums count them. */
  ghost predicate Counted(nodes: seq<TreeNode>, headers: map<int, seq<nat>>, itemCounts: map<int, nat>, db: DB)
  {
    && Linked(nodes) && Indexed(nodes, headers)
    && headers.Keys == ItemsOf(db)
    && forall i, y :: i in headers && Before(itemCounts, y, i) ==> BaseSupport(nodes, headers[i], y) == Support(db, y + {i})
  }

  // ---------------------------------------------------------------------------
  // One step of `add_transaction`

  /** The arena after `current.children[item] = new_node` and `new_node.parent = current`, `new_node` last. */
  function WithChild(nodes: seq<TreeNode>, cur: nat, item: int): seq<TreeNode>
    requires cur < |nodes|
  {
    nodes[cur := nodes[cur].(children := nodes[cur].children[item := |nodes|])] + [NewNode(item, cur)]
  }

  /** The header table after `headers[item].append(new_node)`. */
  function WithHeader(headers: map<int, seq<nat>>, item: int, node: nat): map<int, seq<nat>>
  {
    headers[item := HeaderOf(headers, item) + [node]]
  }

  /** The arena after `node.count += 1`. */
  function Bumped(nodes: seq<TreeNode>, c: nat): seq<TreeNode>
    requires c < |nodes|
  {
    nodes[c := nodes[c].(count := nodes[c].count + 1)]
  }

  /** Creating the missing child keeps the children maps keyed and in step with the parent links. */
  lemma CreateKeyed(nodes: seq<TreeNode>, cur: nat, item: int)
    requires Keyed(nodes) && cur < |nodes| && item !in nodes[cur].children
    ensures Keyed(WithChild(nodes, cur, item)) && SameLinks(nodes, WithChild(nodes, cur, item))
  {
    var after := WithChild(nodes, cur, item);
    var c := |nodes|;
    assert Linked(after);
    forall n, it | 0 <= n < |after| && it in after[n].children ensures ChildOf(after, n, it) {
      if !(n == cur && it == item) {
        assert ChildOf(nodes, n, it);
      }
    }
    forall d | 0 < d < |after| ensures Registered(after, d) {
      if d < c {
        assert Registered(nodes, d);
      }
    }
  }

  /** The new child of the node for `s[..k]` has the path `s[..k + 1]`. */
  lemma CreatePath(nodes: seq<TreeNode>, s: seq<int>, k: nat, cur: nat)
    requires Linked(nodes) && k < |s| && cur < |nodes| && Path(nodes, cur) == s[..k]
    ensures Linked(WithChild(nodes, cur, s[k])) && SameLinks(nodes, WithChild(nodes, cur, s[k]))
    ensures Path(WithChild(nodes, cur, s[k]), |nodes|) == s[..k + 1]
  {
    var after := WithChild(nodes, cur, s[k]);
    assert Linked(after) && SameLinks(nodes, after);
    PathFrame(nodes, after, cur);
    assert after[|nodes|].parent == cur && after[|nodes|].item == s[k];
    assert s[..k + 1] == s[..k] + [s[k]];
  }

  /** In a sorted transaction, the next item comes after the item of the node reached so far. */
  lemma PathLast(nodes: seq<TreeNode>, itemCounts: map<int, nat>, s: seq<int>, k: nat, cur: nat)
    requires Linked(nodes) && SortedBy(itemCounts, s) && k < |s|
    requires 0 < cur < |nodes| && Path(nodes, cur) == s[..k]
    ensures KeyLess(itemCounts, nodes[cur].item, s[k])
  {
    assert Path(nodes, cur) == Path(nodes, nodes[cur].parent) + [nodes[cur].item];
    assert nodes[cur].item == s[k - 1];
  }

  /** A new child of `cur` whose item comes after the item of `cur` keeps the root paths in the tree order. */
  lemma CreateOrdered(nodes: seq<TreeNode>, itemCounts: map<int, nat>, cur: nat, item: int)
    requires Ordered(nodes, itemCounts) && cur < |nodes|
    requires cur != 0 ==> KeyLess(itemCounts, nodes[cur].item, item)
    ensures Ordered(WithChild(nodes, cur, item), itemCounts)
  {
    var after := WithChild(nodes, cur, item);
    var c := |nodes|;
    assert Linked(after);
    forall d | 0 < d < |after| && after[d].parent != 0
      ensures KeyLess(itemCounts, after[after[d].parent].item, after[d].item)
    {
      if d < c {
        assert after[d].parent == nodes[d].parent && after[d].item == nodes[d].item;
        assert after[nodes[d].parent].item == nodes[nodes[d].parent].item;
      }
    }
  }

  /** After creating the child, a header list is still one, with the new node appended when it is of the item. */
  lemma CreateList(nodes: seq<TreeNode>, cur: nat, item: int, s: seq<nat>, i: int)
    requires Linked(nodes) && cur < |nodes|
    requires (|s| > 0 ==> HeaderList(nodes, s, i)) && (|s| == 0 ==> i == item)
    ensures HeaderList(WithChild(nodes, cur, item), if i == item then s + [|nodes|] else s, i)
  {
    var after := WithChild(nodes, cur, item);
    var c := |nodes|;
    assert SameLinks(nodes, after) && after[c].item == item;
    if |s| > 0 {
      ListExtend(nodes, after, s, i);
    }
  }

  /** The new node is listed once, under its item, and nowhere else. */
  lemma CreateIndexed(nodes: seq<TreeNode>, headers: map<int, seq<nat>>, cur: nat, item: int)
    requires Linked(nodes) && Indexed(nodes, headers) && cur < |nodes|
    ensures Indexed(WithChild(nodes, cur, item), WithHeader(headers, item, |nodes|))
  {
    var after := WithChild(nodes, cur, item);
    var hs := WithHeader(headers, item, |nodes|);
    var c := |nodes|;
    forall i | i in hs ensures HeaderList(after, hs[i], i) {
      if i in headers {
        assert HeaderList(nodes, headers[i], i);
      }
      CreateList(nodes, cur, item, HeaderOf(headers, i), i);
    }
    forall d | 0 < d < |after| ensures after[d].item in hs && d in hs[after[d].item] {
      if d < c {
        assert after[d].item == nodes[d].item;
        assert nodes[d].item in headers && d in headers[nodes[d].item];
      } else {
        assert after[d].item == item;
      }
    }
  }

  /** A header list of the old arena is one of the new arena, and does not hold the new node. */
  lemma ListExtend(nodes: seq<TreeNode>, after: seq<TreeNode>, s: seq<nat>, i: int)
    requires HeaderList(nodes, s, i) && SameLinks(nodes, after)
    ensures HeaderList(after, s, i) && |nodes| !in s
  {
  }

  /** Creating the missing child for the next item of a sorted transaction keeps the tree's shape. */
  lemma CreateShape(nodes: seq<TreeNode>, headers: map<int, seq<nat>>, itemCounts: map<int, nat>,
                    s: seq<int>, k: nat, cur: nat)
    requires Shaped(nodes, headers, itemCounts) && SortedBy(itemCounts, s) && k < |s|
    requires cur < |nodes| && Path(nodes, cur) == s[..k] && s[k] !in nodes[cur].children
    ensures Shaped(WithChild(nodes, cur, s[k]), WithHeader(headers, s[k], |nodes|), itemCounts)
    ensures SameLinks(nodes, WithChild(nodes, cur, s[k]))
    ensures Path(WithChild(nodes, cur, s[k]), |nodes|) == s[..k + 1]
  {
    CreateKeyed(nodes, cur, s[k]);
    CreatePath(nodes, s, k, cur);
    if cur != 0 {
      PathLast(nodes, itemCounts, s, k, cur);
    }
    CreateOrdered(nodes, itemCounts, cur, s[k]);
    CreateIndexed(nodes, headers, cur, s[k]);
  }

  /** Creating a child, which counts zero, leaves the sum over a list of old nodes where it was, also when the child joins it. */
  lemma CreateSum(nodes: seq<TreeNode>, cur: nat, item: int, s: seq<nat>, joined: bool, y: set<int>)
    requires Linked(nodes) && cur < |nodes| && InArena(nodes, s)
    ensures Linked(WithChild(nodes, cur, item))
    ensures InArena(WithChild(nodes, cur, item), if joined then s + [|nodes|] else s)
    ensures BaseSupport(WithChild(nodes, cur, item), if joined then s + [|nodes|] else s, y) == BaseSupport(nodes, s, y)
  {
    var after := WithChild(nodes, cur, item);
    assert Linked(after) && SameLinks(nodes, after);
    assert forall k :: 0 <= k < |s| ==> after[s[k]].count == nodes[s[k]].count;
    BaseFrame(nodes, after, s, y);
    if joined {
      BaseSnoc(after, s, |nodes|, y);
    }
  }

  /** Creating the child leaves every header sum where it was, and the new item gets a header list. */
  lemma CreateCount(nodes: seq<TreeNode>, headers: map<int, seq<nat>>, itemCounts: map<int, nat>, db: DB,
                    t: set<int>, s: seq<int>, k: nat, cur: nat)
    requires cur < |nodes| && SortedBy(itemCounts, s) && k < |s|
    requires Counting(nodes, headers, itemCounts, db, t, Elems(s[..k]), Elems(s[..k]))
    ensures Counting(WithChild(nodes, cur, s[k]), WithHeader(headers, s[k], |nodes|), itemCounts, db, t,
                     Elems(s[..k + 1]), Elems(s[..k]))
  {
    var after := WithChild(nodes, cur, s[k]);
    var hs := WithHeader(headers, s[k], |nodes|);
    assert Linked(after);
    CreateIndexed(nodes, headers, cur, s[k]);
    SortedNext(itemCounts, s, k);
    assert hs.Keys == headers.Keys + {s[k]};
    forall i, y | i in hs && Before(itemCounts, y, i)
      ensures BaseSupport(after, hs[i], y) == Support(db, y + {i}) + (if i in Elems(s[..k]) && y <= t then 1 else 0)
    {
      CreateCountAt(nodes, headers, itemCounts, db, t, s, k, cur, i, y);
    }
  }

  /** `CreateCount` for one item and one itemset before it. */
  lemma CreateCountAt(nodes: seq<TreeNode>, headers: map<int, seq<nat>>, itemCounts: map<int, nat>, db: DB,
                      t: set<int>, s: seq<int>, k: nat, cur: nat, i: int, y: set<int>)
    requires cur < |nodes| && SortedBy(itemCounts, s) && k < |s|
    requires Counting(nodes, headers, itemCounts, db, t, Elems(s[..k]), Elems(s[..k]))
    requires i in WithHeader(headers, s[k], |nodes|) && Before(itemCounts, y, i)
    ensures BaseSupport(WithChild(nodes, cur, s[k]), WithHeader(headers, s[k], |nodes|)[i], y)
      == Support(db, y + {i}) + (if i in Elems(s[..k]) && y <= t then 1 else 0)
  {
    SortedNext(itemCounts, s, k);
    if i in headers {
      assert HeaderList(nodes, headers[i], i);
    }
    CreateSum(nodes, cur, s[k], HeaderOf(headers, i), i == s[k], y);
    if i !in headers {
      SupportOutsideItems(db, y + {i}, i);
    }
  }

  /** Counting one more on node `c` bumps the sums of its item by the transactions its ancestors hold. */
  lemma BumpOne(nodes: seq<TreeNode>, headers: map<int, seq<nat>>, c: nat, i: int, y: set<int>)
    requires Linked(nodes) && Indexed(nodes, headers) && 0 < c < |nodes| && i in headers
    ensures InArena(nodes, headers[i]) && Linked(Bumped(nodes, c))
    ensures BaseSupport(Bumped(nodes, c), headers[i], y)
      == BaseSupport(nodes, headers[i], y) + (if i == nodes[c].item && y <= Anc(nodes, c) then 1 else 0)
  {
    assert HeaderList(nodes, headers[i], i);
    BaseBump(nodes, c, headers[i], y);
    if i == nodes[c].item {
      assert c in headers[i];
    } else {
      assert c !in headers[i];
    }
  }

  /** The child of the node for `s[..k]` for `s[k]` is the node for `s[..k + 1]`, below the items of `s[..k]`. */
  lemma ChildPath(nodes: seq<TreeNode>, s: seq<int>, k: nat, cur: nat)
    requires Keyed(nodes) && k < |s| && cur < |nodes| && Path(nodes, cur) == s[..k] && s[k] in nodes[cur].children
    ensures 0 < nodes[cur].children[s[k]] < |nodes|
    ensures nodes[nodes[cur].children[s[k]]].item == s[k]
    ensures Path(nodes, nodes[cur].children[s[k]]) == s[..k + 1]
    ensures Anc(nodes, nodes[cur].children[s[k]]) == Elems(s[..k])
  {
    assert ChildOf(nodes, cur, s[k]);
    assert s[..k + 1] == s[..k] + [s[k]];
  }

  /** Counts do not enter the shape. */
  lemma BumpShape(nodes: seq<TreeNode>, headers: map<int, seq<nat>>, itemCounts: map<int, nat>, c: nat)
    requires Shaped(nodes, headers, itemCounts) && c < |nodes|
    ensures Shaped(Bumped(nodes, c), headers, itemCounts) && SameShape(nodes, Bumped(nodes, c))
  {
    assert SameShape(nodes, Bumped(nodes, c));
    ShapedFrame(nodes, Bumped(nodes, c), headers, itemCounts);
  }

  /** Counting one more on the node for the next item bumps the header sums of that item, and only them. */
  lemma BumpCount(nodes: seq<TreeNode>, headers: map<int, seq<nat>>, itemCounts: map<int, nat>, db: DB,
                  t: set<int>, s: seq<int>, k: nat, c: nat)
    requires SortedBy(itemCounts, s) && Elems(s) == t && k < |s|
    requires Linked(nodes) && 0 < c < |nodes| && nodes[c].item == s[k] && Anc(nodes, c) == Elems(s[..k])
    requires Counting(nodes, headers, itemCounts, db, t, Elems(s[..k + 1]), Elems(s[..k]))
    ensures Linked(Bumped(nodes, c))
    ensures Counting(Bumped(nodes, c), headers, itemCounts, db, t, Elems(s[..k + 1]), Elems(s[..k + 1]))
  {
    var after := Bumped(nodes, c);
    SortedNext(itemCounts, s, k);
    assert Indexed(after, headers) by {
      assert SameShape(nodes, after);
      forall i | i in headers ensures HeaderList(after, headers[i], i) {
        assert HeaderList(nodes, headers[i], i);
      }
    }
    forall i, y | i in headers && Before(itemCounts, y, i)
      ensures BaseSupport(after, headers[i], y) == Support(db, y + {i}) + (if i in Elems(s[..k + 1]) && y <= t then 1 else 0)
    {
      BumpOne(nodes, headers, c, i, y);
      if i == s[k] {
        SortedPrefix(itemCounts, s, k, y);
      }
    }
  }

  /** After the last item, the header sums count the database with the transaction appended. */
  lemma CountingDone(nodes: seq<TreeNode>, headers: map<int, seq<nat>>, itemCounts: map<int, nat>, db: DB,
                     t: set<int>, s: seq<int>)
    requires Elems(s) == t && Counting(nodes, headers, itemCounts, db, t, Elems(s[..|s|]), Elems(s[..|s|]))
    ensures Counted(nodes, headers, itemCounts, db + [t])
  {
    assert s[..|s|] == s;
    ItemsOfSnoc(db, t);
    forall i, y | i in headers && Before(itemCounts, y, i)
      ensures BaseSupport(nodes, headers[i], y) == Support(db + [t], y + {i})
    {
      SupportSnoc(db, t, y + {i});
    }
  }

  /** `walk[j]` is the node whose path is the first `j + 1` items of `s`. */
  ghost predicate Walked(nodes: seq<TreeNode>, s: seq<int>, walk: seq<nat>)
  {
    Linked(nodes) && |walk| <= |s| &&
    forall j :: 0 <= j < |walk| ==> 0 < walk[j] < |nodes| && Path(nodes, walk[j]) == s[..j + 1]
  }

  /** Every node of `before` kept its count, plus one on the nodes of `walk`; later nodes count the walk only. */
  ghost predicate CountsAfter(before: seq<TreeNode>, after: seq<TreeNode>, walk: seq<nat>)
  {
    |before| <= |after| &&
    forall n :: 0 <= n < |after| ==>
      after[n].count == (if n < |before| then before[n].count else 0) + (if n in walk then 1 else 0)
  }

  lemma WalkCreate(before: seq<TreeNode>, nodes: seq<TreeNode>, s: seq<int>, walk: seq<nat>, cur: nat, item: int)
    requires Walked(nodes, s, walk) && CountsAfter(before, nodes, walk) && cur < |nodes|
    requires Linked(WithChild(nodes, cur, item))
    ensures Walked(WithChild(nodes, cur, item), s, walk) && CountsAfter(before, WithChild(nodes, cur, item), walk)
  {
    var after := WithChild(nodes, cur, item);
    forall j | 0 <= j < |walk| ensures Path(after, walk[j]) == s[..j + 1] {
      PathFrame(nodes, after, walk[j]);
    }
  }

  lemma WalkBump(before: seq<TreeNode>, nodes: seq<TreeNode>, s: seq<int>, walk: seq<nat>, c: nat)
    requires Walked(nodes, s, walk) && CountsAfter(before, nodes, walk) && |walk| < |s|
    requires 0 < c < |nodes| && Path(nodes, c) == s[..|walk| + 1]
    ensures Walked(Bumped(nodes, c), s, walk + [c]) && CountsAfter(before, Bumped(nodes, c), walk + [c])
  {
    var after := Bumped(nodes, c);
    assert c !in walk;
    forall j | 0 <= j < |walk| + 1 ensures Path(after, (walk + [c])[j]) == s[..j + 1] {
      PathFrame(nodes, after, (walk + [c])[j]);
    }
  }

  // ---------------------------------------------------------------------------
  // Subtrees and the pre/post numbering

  /** `a` is `m` or one of its ancestors. */
  ghost predicate IsAncestor(nodes: seq<TreeNode>, a: nat, m: nat)
    requires Linked(nodes) && m < |nodes|
    decreases m
  {
    a == m || (m != 0 && IsAncestor(nodes, a, nodes[m].parent))
  }

  /** The subtree of `a`: `a` and every node below it. */
  ghost function Desc(nodes: seq<TreeNode>, a: nat): set<nat>
    requires Linked(nodes)
  {
    set m: nat | m < |nodes| && IsAncestor(nodes, a, m)
  }

  /** The subtrees of the children of `n` for the items of `its`, together. */
  ghost function Subtrees(nodes: seq<TreeNode>, n: nat, its: set<int>): set<nat>
    requires Linked(nodes) && n < |nodes|
  {
    set it, m | it in its && it in nodes[n].children && m in Desc(nodes, nodes[n].children[it]) :: m
  }

  /** The node indices of an arena of `n` nodes. */
  ghost function AllNodes(n: nat): (r: set<nat>)
    ensures forall m: nat :: m in r <==> m < n
    ensures |r| == n
  {
    if n == 0 then {} else AllNodes(n - 1) + {n - 1}
  }

  lemma {:induction false} AncestorBelow(nodes: seq<TreeNode>, a: nat, m: nat)
    requires Linked(nodes) && m < |nodes| && IsAncestor(nodes, a, m)
    ensures a <= m
    decreases m
  {
    if a != m {
      AncestorBelow(nodes, a, nodes[m].parent);
    }
  }

  lemma {:induction false} AncestorTrans(nodes: seq<TreeNode>, a: nat, b: nat, m: nat)
    requires Linked(nodes) && b <= m < |nodes| && IsAncestor(nodes, a, b) && IsAncestor(nodes, b, m)
    ensures IsAncestor(nodes, a, m)
    decreases m
  {
    if b != m {
      AncestorBelow(nodes, b, nodes[m].parent);
      AncestorTrans(nodes, a, b, nodes[m].parent);
    }
  }

  /** Two ancestors of the same node are ancestors one of the other. */
  lemma {:induction false} AncestorChain(nodes: seq<TreeNode>, a: nat, b: nat, m: nat)
    requires Linked(nodes) && m < |nodes| && IsAncestor(nodes, a, m) && IsAncestor(nodes, b, m)
    ensures a <= m && b <= m
    ensures IsAncestor(nodes, a, b) || IsAncestor(nodes, b, a)
    decreases m
  {
    AncestorBelow(nodes, a, m);
    AncestorBelow(nodes, b, m);
    if a != m && b != m {
      AncestorChain(nodes, a, b, nodes[m].parent);
    }
  }

  /** Every node descends from the root. */
  lemma {:induction false} RootAncestor(nodes: seq<TreeNode>, m: nat)
    requires Linked(nodes) && m < |nodes|
    ensures IsAncestor(nodes, 0, m)
    decreases m
  {
    if m != 0 {
      RootAncestor(nodes, nodes[m].parent);
    }
  }

  /** The root's subtree is the whole arena. */
  lemma RootSubtree(nodes: seq<TreeNode>)
    requires Linked(nodes)
    ensures Desc(nodes, 0) == AllNodes(|nodes|) && |Desc(nodes, 0)| == |nodes|
  {
    forall m: nat | m < |nodes| ensures IsAncestor(nodes, 0, m) {
      RootAncestor(nodes, m);
    }
  }

  /** A child of `n` lies after `n`, whose subtree holds the child's. */
  lemma ChildFacts(nodes: seq<TreeNode>, n: nat, it: int)
    requires Keyed(nodes) && n < |nodes| && it in nodes[n].children
    ensures var c := nodes[n].children[it];
      n < c < |nodes| && nodes[c].parent == n && nodes[c].item == it && IsAncestor(nodes, n, c) && n !in Desc(nodes, c)
  {
    var c := nodes[n].children[it];
    assert ChildOf(nodes, n, it);
    if IsAncestor(nodes, c, n) {
      AncestorBelow(nodes, c, n);
    }
  }

  /** The subtrees of two different children of a node share no node, and neither is above the other. */
  lemma SiblingSubtrees(nodes: seq<TreeNode>, n: nat, it1: int, it2: int, a: nat, b: nat)
    requires Keyed(nodes) && n < |nodes| && it1 in nodes[n].children && it2 in nodes[n].children && it1 != it2
    requires a in Desc(nodes, nodes[n].children[it1]) && b in Desc(nodes, nodes[n].children[it2])
    ensures b != a && !IsAncestor(nodes, a, b) && !IsAncestor(nodes, b, a)
  {
    var c1 := nodes[n].children[it1];
    var c2 := nodes[n].children[it2];
    ChildFacts(nodes, n, it1);
    ChildFacts(nodes, n, it2);
    if b == a || IsAncestor(nodes, a, b) || IsAncestor(nodes, b, a) {
      var m := if b == a || IsAncestor(nodes, a, b) then b else a;
      if IsAncestor(nodes, a, b) {
        AncestorBelow(nodes, a, b);
        AncestorTrans(nodes, c1, a, b);
      }
      if IsAncestor(nodes, b, a) {
        AncestorBelow(nodes, b, a);
        AncestorTrans(nodes, c2, b, a);
      }
      AncestorChain(nodes, c1, c2, m);
      if IsAncestor(nodes, c1, c2) {
        AncestorBelow(nodes, c1, n);
      } else {
        AncestorBelow(nodes, c2, n);
      }
      assert false;
    }
  }

  /** A child not yet visited has a subtree apart from, and unrelated to, those of the children visited. */
  lemma ForeignSubtree(nodes: seq<TreeNode>, n: nat, done: set<int>, it: int)
    requires Keyed(nodes) && n < |nodes| && done <= nodes[n].children.Keys
    requires it in nodes[n].children && it !in done
    ensures Subtrees(nodes, n, done) !! Desc(nodes, nodes[n].children[it])
    ensures forall a, b :: a in Subtrees(nodes, n, done) && b in Desc(nodes, nodes[n].children[it]) ==>
      !IsAncestor(nodes, a, b) && !IsAncestor(nodes, b, a)
    ensures Subtrees(nodes, n, done + {it}) == Subtrees(nodes, n, done) + Desc(nodes, nodes[n].children[it])
  {
    forall a, b | a in Subtrees(nodes, n, done) && b in Desc(nodes, nodes[n].children[it])
      ensures a != b && !IsAncestor(nodes, a, b) && !IsAncestor(nodes, b, a)
    {
      var it' :| it' in done && it' in nodes[n].children && a in Desc(nodes, nodes[n].children[it']);
      SiblingSubtrees(nodes, n, it', it, a, b);
    }
  }

  /** A subtree is its root and the subtrees of its children. */
  lemma DescSplit(nodes: seq<TreeNode>, n: nat)
    requires Keyed(nodes) && n < |nodes|
    ensures Desc(nodes, n) == {n} + Subtrees(nodes, n, nodes[n].children.Keys)
  {
    forall m | m in Desc(nodes, n) && m != n ensures m in Subtrees(nodes, n, nodes[n].children.Keys) {
      AncestorBelow(nodes, n, m);
      var it := DescChild(nodes, n, m);
      assert m in Desc(nodes, nodes[n].children[it]);
    }
    forall m | m in Subtrees(nodes, n, nodes[n].children.Keys) ensures m in Desc(nodes, n) {
      var it :| it in nodes[n].children && m in Desc(nodes, nodes[n].children[it]);
      var c := nodes[n].children[it];
      ChildFacts(nodes, n, it);
      AncestorBelow(nodes, c, m);
      AncestorTrans(nodes, n, c, m);
    }
  }

  /** A node strictly below `n` is below one of its children. */
  lemma {:induction false} DescChild(nodes: seq<TreeNode>, n: nat, m: nat) returns (it: int)
    requires Keyed(nodes) && n <= m < |nodes| && IsAncestor(nodes, n, m) && m != n
    ensures it in nodes[n].children && IsAncestor(nodes, nodes[n].children[it], m)
    decreases m
  {
    var p := nodes[m].parent;
    if p == n {
      assert Registered(nodes, m);
      it := nodes[m].item;
    } else {
      AncestorBelow(nodes, n, p);
      it := DescChild(nodes, n, p);
    }
  }

  /**
   * The nodes of `s` carry distinct preorder numbers in `[lo, hi)` and distinct postorder numbers in
   * `[plo, phi)`; of two of them, an ancestor has the smaller preorder and the larger postorder number.
   * The links are read from `shape`, the numbers from `nodes`.
   */
  ghost predicate Numbered(shape: seq<TreeNode>, nodes: seq<TreeNode>, s: set<nat>, lo: int, hi: int, plo: int, phi: int)
    requires Linked(shape)
  {
    && |nodes| == |shape|
    && (forall m :: m in s ==> m < |shape|)
    && (forall m :: m in s ==> lo <= nodes[m].preorder < hi && plo <= nodes[m].postorder < phi)
    && (forall m, m' :: m in s && m' in s && m != m' ==>
          nodes[m].preorder != nodes[m'].preorder && nodes[m].postorder != nodes[m'].postorder)
    && (forall a, b :: a in s && b in s && a != b && IsAncestor(shape, a, b) ==>
          nodes[a].preorder < nodes[b].preorder && nodes[b].postorder < nodes[a].postorder)
  }

  lemma NumberedFrame(shape: seq<TreeNode>, before: seq<TreeNode>, after: seq<TreeNode>, s: set<nat>,
                      lo: int, hi: int, plo: int, phi: int)
    requires Linked(shape) && Numbered(shape, before, s, lo, hi, plo, phi) && |after| == |before|
    requires forall m :: m in s ==> after[m] == before[m]
    ensures Numbered(shape, after, s, lo, hi, plo, phi)
  {
  }

  /** Two numbered node sets with consecutive ranges, apart and unrelated, are numbered together. */
  lemma NumberedJoin(shape: seq<TreeNode>, nodes: seq<TreeNode>, s1: set<nat>, s2: set<nat>,
                     lo: int, mid: int, hi: int, plo: int, pmid: int, phi: int)
    requires Linked(shape) && Numbered(shape, nodes, s1, lo, mid, plo, pmid) && Numbered(shape, nodes, s2, mid, hi, pmid, phi)
    requires lo <= mid <= hi && plo <= pmid <= phi
    requires forall a, b :: a in s1 && b in s2 ==> !IsAncestor(shape, a, b) && !IsAncestor(shape, b, a)
    ensures Numbered(shape, nodes, s1 + s2, lo, hi, plo, phi)
  {
    var s := s1 + s2;
    assert forall m :: m in s ==> lo <= nodes[m].preorder < hi && plo <= nodes[m].postorder < phi;
    assert forall m, m' :: m in s && m' in s && m != m' ==>
      nodes[m].preorder != nodes[m'].preorder && nodes[m].postorder != nodes[m'].postorder;
    assert forall a, b :: a in s && b in s && a != b && IsAncestor(shape, a, b) ==>
      nodes[a].preorder < nodes[b].preorder && nodes[b].postorder < nodes[a].postorder;
  }

  /** A node numbered first in preorder and last in postorder, above its numbered descendants. */
  lemma NumberedTop(shape: seq<TreeNode>, nodes: seq<TreeNode>, n: nat, below: set<nat>,
                    lo: int, hi: int, plo: int, phi: int)
    requires Linked(shape) && n < |shape| && Numbered(shape, nodes, below, lo + 1, hi, plo, phi - 1)
    requires below <= Desc(shape, n) && n !in below
    requires nodes[n].preorder == lo && nodes[n].postorder == phi - 1 && lo < hi && plo < phi
    ensures Numbered(shape, nodes, {n} + below, lo, hi, plo, phi)
  {
    forall a | a in below && IsAncestor(shape, a, n) ensures false {
      AncestorBelow(shape, a, n);
      AncestorBelow(shape, n, a);
    }
  }

  /** Ancestry follows the parent links only. */
  lemma {:induction false} AncestorFrame(before: seq<TreeNode>, after: seq<TreeNode>, a: nat, m: nat)
    requires Linked(before) && Linked(after) && SameLinks(before, after) && m < |before|
    ensures IsAncestor(after, a, m) == IsAncestor(before, a, m)
    decreases m
  {
    if m != 0 {
      AncestorFrame(before, after, a, before[m].parent);
    }
  }

  /** Numbers given along the links of `shape` hold along the same links in the numbered arena. */
  lemma NumberedOwn(shape: seq<TreeNode>, nodes: seq<TreeNode>, s: set<nat>, lo: int, hi: int, plo: int, phi: int)
    requires Linked(shape) && SameShape(shape, nodes) && Numbered(shape, nodes, s, lo, hi, plo, phi)
    ensures Linked(nodes) && Numbered(nodes, nodes, s, lo, hi, plo, phi)
  {
    assert Linked(nodes);
    forall a, b | a in s && b in s ensures IsAncestor(nodes, a, b) == IsAncestor(shape, a, b) {
      AncestorFrame(shape, nodes, a, b);
    }
  }
}
