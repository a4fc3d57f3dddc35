/**
 * PrePost: a prefix tree over transactions sorted by descending item count.
 * `add_transaction` walks the sorted items down from the root, creating the
 * missing children and counting one more on every node of the walk; the header
 * table lists the nodes of each item.  `mine_patterns` visits the items of the
 * header table: for a frequent item it reads the support from the header sum,
 * gathers the root paths above the item's nodes (each as many times as the node
 * counts) into a conditional base, builds a tree from it and mines that tree,
 * prefixing the item to what comes back.
 *
 * The nodes live in an arena (see `PrePostArena`); the transactions inserted so
 * far are the ghost `db` against which the header sums are stated.
 */
module PrePost {
  import opened Mining
  import opened PrePostArena
  import opened PrePostPatterns

  /** A tree holding only the root is well shaped and counts the empty database, whatever the item counts. */
  lemma RootOnly(itemCounts: map<int, nat>)
    ensures Shaped([NewNode(0, 0)], map[], itemCounts) && Counted([NewNode(0, 0)], map[], itemCounts, [])
  {
    assert ItemsOf([]) == {};
  }

  /** Changing nothing but the pre/post numbers of nodes keeps the shape and the header sums. */
  lemma RenumberedValid(before: seq<TreeNode>, after: seq<TreeNode>, headers: map<int, seq<nat>>,
                        itemCounts: map<int, nat>, db: DB)
    requires Shaped(before, headers, itemCounts) && Counted(before, headers, itemCounts, db) && |after| == |before|
    requires Renumbered(before, after)
    ensures Shaped(after, headers, itemCounts) && Counted(after, headers, itemCounts, db)
  {
    assert SameShape(before, after);
    ShapedFrame(before, after, headers, itemCounts);
    forall i, y | i in headers && Before(itemCounts, y, i)
      ensures BaseSupport(after, headers[i], y) == Support(db, y + {i})
    {
      assert HeaderList(before, headers[i], i);
      BaseFrame(before, after, headers[i], y);
    }
  }

  /** A child already present for the next item: its item has a header list, so the header keys stay. */
  lemma ChildListed(nodes: seq<TreeNode>, headers: map<int, seq<nat>>, itemCounts: map<int, nat>, db: DB,
                    t: set<int>, s: seq<int>, k: nat, cur: nat)
    requires Shaped(nodes, headers, itemCounts) && k < |s|
    requires cur < |nodes| && s[k] in nodes[cur].children
    requires Counting(nodes, headers, itemCounts, db, t, Elems(s[..k]), Elems(s[..k]))
    ensures Counting(nodes, headers, itemCounts, db, t, Elems(s[..k + 1]), Elems(s[..k]))
  {
    assert ChildOf(nodes, cur, s[k]);
    assert s[k] in headers;
    assert s[..k + 1] == s[..k] + [s[k]];
    assert Elems(s[..k + 1]) == Elems(s[..k]) + {s[k]};
  }

  /**
   * Part way through `add_transaction` of `t`, sorted as `s`, into a tree that held `db` and had the
   * arena `before`: the walk has reached `current` through the first `k` items, counting one more on
   * every node it visited, and the header sums count `t` for the items visited.
   */
  ghost predicate Inserting(nodes: seq<TreeNode>, headers: map<int, seq<nat>>, itemCounts: map<int, nat>,
                            before: seq<TreeNode>, db: DB, t: set<int>, s: seq<int>, k: nat, current: nat, walk: seq<nat>)
  {
    && k <= |s| && Shaped(nodes, headers, itemCounts) && current < |nodes| && Path(nodes, current) == s[..k]
    && Counting(nodes, headers, itemCounts, db, t, Elems(s[..k]), Elems(s[..k]))
    && SameLinks(before, nodes) && |walk| == k && Walked(nodes, s, walk) && CountsAfter(before, nodes, walk)
  }

  /**
   * Half way through an iteration of `add_transaction`: the child of `current` for `s[k]` exists, its
   * item has a header list, and the sums do not count `t` for it yet.
   */
  ghost predicate Reached(nodes: seq<TreeNode>, headers: map<int, seq<nat>>, itemCounts: map<int, nat>,
                          before: seq<TreeNode>, db: DB, t: set<int>, s: seq<int>, k: nat, current: nat, walk: seq<nat>)
  {
    && k < |s| && Shaped(nodes, headers, itemCounts) && current < |nodes| && Path(nodes, current) == s[..k]
    && s[k] in nodes[current].children
    && Counting(nodes, headers, itemCounts, db, t, Elems(s[..k + 1]), Elems(s[..k]))
    && SameLinks(before, nodes) && |walk| == k && Walked(nodes, s, walk) && CountsAfter(before, nodes, walk)
  }

  /** The missing child for the next item is created and listed under its item. */
  lemma StepCreate(nodes: seq<TreeNode>, headers: map<int, seq<nat>>, itemCounts: map<int, nat>,
                   before: seq<TreeNode>, db: DB, t: set<int>, s: seq<int>, k: nat, current: nat, walk: seq<nat>)
    requires Inserting(nodes, headers, itemCounts, before, db, t, s, k, current, walk) && k < |s| && SortedBy(itemCounts, s)
    requires s[k] !in nodes[current].children
    ensures Reached(WithChild(nodes, current, s[k]), WithHeader(headers, s[k], |nodes|), itemCounts, before, db, t, s, k, current, walk)
  {
    var after := WithChild(nodes, current, s[k]);
    CreateShape(nodes, headers, itemCounts, s, k, current);
    CreateCount(nodes, headers, itemCounts, db, t, s, k, current);
    WalkCreate(before, nodes, s, walk, current, s[k]);
    PathFrame(nodes, after, current);
  }

  /** The child for the next item is already there. */
  lemma StepExisting(nodes: seq<TreeNode>, headers: map<int, seq<nat>>, itemCounts: map<int, nat>,
                     before: seq<TreeNode>, db: DB, t: set<int>, s: seq<int>, k: nat, current: nat, walk: seq<nat>)
    requires Inserting(nodes, headers, itemCounts, before, db, t, s, k, current, walk) && k < |s|
    requires s[k] in nodes[current].children
    ensures Reached(nodes, headers, itemCounts, before, db, t, s, k, current, walk)
  {
    ChildListed(nodes, headers, itemCounts, db, t, s, k, current);
  }

  /** Moving to the child and counting one more on it ends the iteration. */
  lemma StepBump(nodes: seq<TreeNode>, headers: map<int, seq<nat>>, itemCounts: map<int, nat>,
                 before: seq<TreeNode>, db: DB, t: set<int>, s: seq<int>, k: nat, current: nat, walk: seq<nat>)
    requires Reached(nodes, headers, itemCounts, before, db, t, s, k, current, walk)
    requires SortedBy(itemCounts, s) && Elems(s) == t
    ensures 0 < nodes[current].children[s[k]] < |nodes|
    ensures Inserting(Bumped(nodes, nodes[current].children[s[k]]), headers, itemCounts, before, db, t, s, k + 1,
                      nodes[current].children[s[k]], walk + [nodes[current].children[s[k]]])
  {
    var c := nodes[current].children[s[k]];
    ChildPath(nodes, s, k, current);
    BumpShape(nodes, headers, itemCounts, c);
    BumpCount(nodes, headers, itemCounts, db, t, s, k, c);
    WalkBump(before, nodes, s, walk, c);
    PathFrame(nodes, Bumped(nodes, c), c);
  }

  /** `after` is `before` with at most the pre/post numbers of its nodes changed. */
  ghost predicate Renumbered(before: seq<TreeNode>, after: seq<TreeNode>)
  {
    |after| == |before| &&
    forall m :: 0 <= m < |after| ==> after[m] == before[m].(preorder := after[m].preorder, postorder := after[m].postorder)
  }

  /** The nodes outside `s` are as they were. */
  ghost predicate Outside(before: seq<TreeNode>, after: seq<TreeNode>, s: set<nat>)
  {
    |after| == |before| && forall m :: 0 <= m < |after| && m !in s ==> after[m] == before[m]
  }

  /** The children for the items of `done` have been visited, and their subtrees make up `below`. */
  ghost predicate VisitShape(shape: seq<TreeNode>, node: nat, done: set<int>, below: set<nat>)
  {
    && Keyed(shape) && node < |shape|
    && (forall x :: x in done ==> x in shape[node].children)
    && below == Subtrees(shape, node, done) && node !in below
  }

  /**
   * The numbers part way through `assign_prepost_numbers(node)`, which started from the arena `start`
   * with the counters at `lo` and `plo` and now has them at `pre` and `post`: `node` has its preorder
   * number, the nodes of `below` are numbered next, in both orders, and nothing else changed.
   */
  ghost predicate VisitNumbers(shape: seq<TreeNode>, start: seq<TreeNode>, nodes: seq<TreeNode>, node: nat,
                               lo: int, plo: int, pre: int, post: int, below: set<nat>)
  {
    && Linked(shape) && node < |shape| && SameShape(shape, nodes)
    && pre == lo + 1 + |below| && post == plo + |below|
    && Numbered(shape, nodes, below, lo + 1, pre, plo, post)
    && Renumbered(start, nodes) && Outside(start, nodes, below + {node})
    && nodes[node] == start[node].(preorder := lo)
  }

  /** Part way through `assign_prepost_numbers(node)`: the children of `done` are visited. */
  ghost predicate Visiting(shape: seq<TreeNode>, start: seq<TreeNode>, nodes: seq<TreeNode>, node: nat,
                           lo: int, plo: int, pre: int, post: int, done: set<int>, below: set<nat>)
  {
    VisitShape(shape, node, done, below) && VisitNumbers(shape, start, nodes, node, lo, plo, pre, post, below)
  }

  /**
   * What `assign_prepost_numbers(node)` leaves behind, from the arena `before` and the counters at `pre`
   * and `post`: the nodes of `numbered`, the subtree of `node`, carry the numbers from `pre` and `post`
   * on, the counters have moved past them, and nothing else changed.
   */
  ghost predicate NumberedSubtree(shape: seq<TreeNode>, before: seq<TreeNode>, after: seq<TreeNode>, node: nat,
                                  pre: int, pre': int, post: int, post': int, numbered: set<nat>)
  {
    && Linked(shape) && SameShape(shape, after) && numbered == Desc(shape, node)
    && pre' == pre + |numbered| && post' == post + |numbered|
    && Numbered(shape, after, numbered, pre, pre', post, post')
    && Renumbered(before, after) && Outside(before, after, numbered)
  }

  /** The node has its preorder number and no child has been visited. */
  lemma VisitStart(shape: seq<TreeNode>, start: seq<TreeNode>, node: nat, lo: int, plo: int)
    requires Keyed(shape) && SameShape(shape, start) && node < |start|
    ensures Visiting(shape, start, start[node := start[node].(preorder := lo)], node, lo, plo, lo + 1, plo, {}, {})
  {
    assert Subtrees(shape, node, {}) == {};
  }

  /** The subtrees visited and the next one are apart and unrelated, and together the subtrees visited after it. */
  lemma ShapeStep(shape: seq<TreeNode>, node: nat, done: set<int>, below: set<nat>, it: int, sub: set<nat>)
    requires VisitShape(shape, node, done, below)
    requires it in shape[node].children && it !in done && sub == Desc(shape, shape[node].children[it])
    ensures VisitShape(shape, node, done + {it}, below + sub)
    ensures node !in sub && below !! sub
    ensures forall a, b :: a in below && b in sub ==> !IsAncestor(shape, a, b) && !IsAncestor(shape, b, a)
  {
    ChildFacts(shape, node, it);
    KeysOf(shape[node].children, done);
    ForeignSubtree(shape, node, done, it);
  }

  /** The numbers of the subtrees visited survive the next one's, which follow them. */
  lemma NumberedStep(shape: seq<TreeNode>, prev: seq<TreeNode>, nodes: seq<TreeNode>, below: set<nat>, sub: set<nat>,
                     lo: int, pre: int, pre': int, plo: int, post: int, post': int)
    requires Linked(shape) && Numbered(shape, prev, below, lo, pre, plo, post) && Numbered(shape, nodes, sub, pre, pre', post, post')
    requires Outside(prev, nodes, sub) && below !! sub && lo <= pre <= pre' && plo <= post <= post'
    requires forall a, b :: a in below && b in sub ==> !IsAncestor(shape, a, b) && !IsAncestor(shape, b, a)
    ensures Numbered(shape, nodes, below + sub, lo, pre', plo, post') && |below + sub| == |below| + |sub|
  {
    NumberedFrame(shape, prev, nodes, below, lo, pre, plo, post);
    NumberedJoin(shape, nodes, below, sub, lo, pre, pre', plo, post, post');
  }

  /** Frames compose. */
  lemma FrameStep(start: seq<TreeNode>, prev: seq<TreeNode>, nodes: seq<TreeNode>, keep: set<nat>, sub: set<nat>)
    requires Renumbered(start, prev) && Outside(start, prev, keep) && Renumbered(prev, nodes) && Outside(prev, nodes, sub)
    ensures Renumbered(start, nodes) && Outside(start, nodes, keep + sub)
  {
  }

  /** The numbers after one more child's subtree. */
  lemma NumbersStep(shape: seq<TreeNode>, start: seq<TreeNode>, prev: seq<TreeNode>, nodes: seq<TreeNode>, node: nat, c: nat,
                    lo: int, plo: int, pre: int, post: int, below: set<nat>, sub: set<nat>, pre': int, post': int)
    requires VisitNumbers(shape, start, prev, node, lo, plo, pre, post, below)
    requires NumberedSubtree(shape, prev, nodes, c, pre, pre', post, post', sub)
    requires node !in sub && below !! sub
    requires forall a, b :: a in below && b in sub ==> !IsAncestor(shape, a, b) && !IsAncestor(shape, b, a)
    ensures VisitNumbers(shape, start, nodes, node, lo, plo, pre', post', below + sub)
  {
    NumberedStep(shape, prev, nodes, below, sub, lo + 1, pre, pre', plo, post, post');
    FrameStep(start, prev, nodes, below + {node}, sub);
    UnionSwap(below, sub, node);
    assert nodes[node] == prev[node];
  }

  lemma UnionSwap(a: set<nat>, b: set<nat>, n: nat)
    ensures a + {n} + b == (a + b) + {n}
  {
  }

  /** The subtree of one more child, numbered by the recursive call, joins those numbered before. */
  lemma VisitStep(shape: seq<TreeNode>, start: seq<TreeNode>, prev: seq<TreeNode>, nodes: seq<TreeNode>, node: nat,
                  lo: int, plo: int, pre: int, post: int, done: set<int>, below: set<nat>, it: int,
                  sub: set<nat>, pre': int, post': int)
    requires Visiting(shape, start, prev, node, lo, plo, pre, post, done, below)
    requires it in shape[node].children && it !in done
    requires NumberedSubtree(shape, prev, nodes, shape[node].children[it], pre, pre', post, post', sub)
    ensures Visiting(shape, start, nodes, node, lo, plo, pre', post', done + {it}, below + sub)
  {
    ShapeStep(shape, node, done, below, it, sub);
    NumbersStep(shape, start, prev, nodes, node, shape[node].children[it], lo, plo, pre, post, below, sub, pre', post');
  }

  /** Setting the node's postorder number changes nothing outside the subtree being numbered. */
  lemma FinalFrame(start: seq<TreeNode>, nodes: seq<TreeNode>, final: seq<TreeNode>, node: nat, post: int, below: set<nat>)
    requires Renumbered(start, nodes) && Outside(start, nodes, below + {node}) && node < |nodes|
    requires final == nodes[node := nodes[node].(postorder := post)]
    ensures Renumbered(start, final) && Outside(start, final, {node} + below)
  {
  }

  /** The node's postorder number, last, puts it above the numbered nodes below it. */
  lemma NumbersDone(shape: seq<TreeNode>, nodes: seq<TreeNode>, final: seq<TreeNode>, node: nat,
                    lo: int, plo: int, pre: int, post: int, below: set<nat>)
    requires Linked(shape) && node < |shape| && SameShape(shape, nodes)
    requires pre == lo + 1 + |below| && Numbered(shape, nodes, below, lo + 1, pre, plo, post)
    requires nodes[node].preorder == lo && plo <= post
    requires below <= Desc(shape, node) && node !in below
    requires final == nodes[node := nodes[node].(postorder := post)]
    ensures SameShape(shape, final) && |{node} + below| == |below| + 1
    ensures Numbered(shape, final, {node} + below, lo, pre, plo, post + 1)
  {
    NumberedFrame(shape, nodes, final, below, lo + 1, pre, plo, post);
    NumberedTop(shape, final, node, below, lo, pre, plo, post + 1);
  }

  /** Once every child is visited, the node gets its postorder number, last: its whole subtree is numbered. */
  lemma VisitDone(shape: seq<TreeNode>, start: seq<TreeNode>, nodes: seq<TreeNode>, final: seq<TreeNode>, node: nat,
                  lo: int, plo: int, pre: int, post': int, done: set<int>, below: set<nat>, numbered: set<nat>)
    requires Visiting(shape, start, nodes, node, lo, plo, pre, post' - 1, done, below)
    requires forall x :: x in shape[node].children ==> x in done
    requires final == nodes[node := nodes[node].(postorder := post' - 1)] && numbered == {node} + below
    ensures NumberedSubtree(shape, start, final, node, lo, pre, plo, post', numbered)
  {
    var post := post' - 1;
    KeysEq(shape[node].children, done);
    DescSplit(shape, node);
    assert VisitNumbers(shape, start, nodes, node, lo, plo, pre, post, below);
    NumbersDone(shape, nodes, final, node, lo, plo, pre, post, below);
    FinalFrame(start, nodes, final, node, post, below);
  }

  /** The copies of the root path of the next listed node extend the rows counted by the header sum by that node. */
  lemma BaseRowsStep(nodes: seq<TreeNode>, hs: seq<nat>, k: nat, rows: DB, rows': DB)
    requires Linked(nodes) && InArena(nodes, hs) && k < |hs|
    requires forall y :: Support(rows, y) == BaseSupport(nodes, hs[..k], y)
    requires forall y :: Support(rows', y) == Support(rows, y) + (if y <= Anc(nodes, hs[k]) then nodes[hs[k]].count else 0)
    ensures forall y :: Support(rows', y) == BaseSupport(nodes, hs[..k + 1], y)
  {
    assert hs[..k + 1][..k] == hs[..k];
  }

  /** The keys of a map include the items found in it. */
  lemma KeysOf(m: map<int, nat>, d: set<int>)
    requires forall x :: x in d ==> x in m
    ensures d <= m.Keys
  {
    forall x | x in d ensures x in m.Keys {
      assert x in m;
    }
  }

  /** The keys of a map are the items found in it. */
  lemma KeysEq(m: map<int, nat>, d: set<int>)
    requires forall x :: x in d ==> x in m
    requires forall x :: x in m ==> x in d
    ensures d == m.Keys
  {
    KeysOf(m, d);
    forall x | x in m.Keys ensures x in d {
      assert x in m;
    }
  }

  /** A non-empty set has an item counted at least as often as any other. */
  lemma MostCounted(rest: set<int>, itemCounts: map<int, nat>)
    requires rest != {}
    ensures exists m :: m in rest && forall b :: b in rest ==> Get(itemCounts, b) <= Get(itemCounts, m)
  {
    var m := KeyLeast(rest, itemCounts);
    assert forall b :: b in rest ==> Get(itemCounts, b) <= Get(itemCounts, m);
  }

  /** A proper subset is smaller. */
  lemma ProperSubsetCard(a: set<int>, b: set<int>)
    requires a < b
    ensures |a| < |b|
  {
    NonEmpty(b - a);
    var x :| x in b - a;
    SubsetCard(a, b - {x});
  }

  class PrePostTree {
    /** The arena; node 0 is `root`. */
    var nodes: seq<TreeNode>
    var headers: map<int, seq<nat>>
    var itemCounts: map<int, nat>
    var transactions: DB
    var preorderCounter: int
    var postorderCounter: int
    /** The transactions inserted into the tree so far. */
    ghost var db: DB

    /** The tree is well shaped and its header sums count `db`. */
    ghost predicate Valid()
      reads this
    {
      Shaped(nodes, headers, itemCounts) && Counted(nodes, headers, itemCounts, db)
    }

    /** A tree holding the root only, with no counts, transactions or numbers yet. */
    ghost predicate Empty()
      reads this
    {
      && nodes == [NewNode(0, 0)] && headers == map[] && itemCounts == map[] && transactions == []
      && preorderCounter == 0 && postorderCounter == 0 && db == []
    }

    constructor ()
      ensures Valid() && Empty()
    {
      nodes := [NewNode(0, 0)];
      headers := map[];
      itemCounts := map[];
      transactions := [];
      preorderCounter := 0;
      postorderCounter := 0;
      db := [];
      RootOnly(map[]);
    }

    /** `sorted(transaction, key=lambda item: (-item_counts[item], item))`. */
    method SortItems(transaction: set<int>) returns (s: seq<int>)
      ensures Elems(s) == transaction && SortedBy(itemCounts, s)
    {
      s := [];
      var rest := transaction;
      while rest != {}
        invariant rest <= transaction && Elems(s) == transaction - rest && SortedBy(itemCounts, s)
        invariant forall j, b :: 0 <= j < |s| && b in rest ==> KeyLess(itemCounts, s[j], b)
        decreases rest
      {
        var least := KeyLeast(rest, itemCounts);
        var m :| m in rest && forall b :: b in rest && b != m ==> KeyLess(itemCounts, m, b);
        assert Elems(s + [m]) == Elems(s) + {m};
        s := s + [m];
        rest := rest - {m};
      }
    }

    /**
     * One iteration of the loop of `add_transaction`, on the item `s[k]`: creates the child of `current`
     * for it when missing (listing the new node in the header table), moves to that child and counts
     * one more on it.
     */
    method InsertItem(ghost before: seq<TreeNode>, ghost t: set<int>, s: seq<int>, k: nat, current: nat, ghost walk: seq<nat>)
      returns (child: nat, ghost walk': seq<nat>)
      requires Inserting(nodes, headers, itemCounts, before, db, t, s, k, current, walk) && k < |s|
      requires SortedBy(itemCounts, s) && Elems(s) == t
      modifies this`nodes, this`headers
      ensures Inserting(nodes, headers, itemCounts, before, db, t, s, k + 1, child, walk') && walk' == walk + [child]
    {
      var item := s[k];
      if item !in nodes[current].children {
        StepCreate(nodes, headers, itemCounts, before, db, t, s, k, current, walk);
        var newNode := |nodes|;
        nodes := WithChild(nodes, current, item);
        headers := WithHeader(headers, item, newNode);
      } else {
        StepExisting(nodes, headers, itemCounts, before, db, t, s, k, current, walk);
      }
      StepBump(nodes, headers, itemCounts, before, db, t, s, k, current, walk);
      child := nodes[current].children[item];
      walk' := walk + [child];
      nodes := Bumped(nodes, child);
    }

    /**
     * `add_transaction`: the tree then holds one more transaction.  The walk visits one node per sorted
     * item, the node whose root path is that prefix of the sorted items; each visited node counts one
     * more, every other node keeps its count (a created node starts at zero), and the nodes that were
     * there keep their items and parents.
     */
    method AddTransaction(transaction: set<int>) returns (ghost sortedItems: seq<int>, ghost walk: seq<nat>)
      requires Valid()
      modifies this`nodes, this`headers, this`db
      ensures Valid() && db == old(db) + [transaction]
      ensures Elems(sortedItems) == transaction && SortedBy(itemCounts, sortedItems)
      ensures SameLinks(old(nodes), nodes) && |walk| == |sortedItems| && Walked(nodes, sortedItems, walk)
      ensures CountsAfter(old(nodes), nodes, walk)
    {
      var s := SortItems(transaction);
      sortedItems := s;
      var current: nat := 0;
      walk := [];
      assert s[..0] == [];
      for k := 0 to |s|
        invariant Inserting(nodes, headers, itemCounts, old(nodes), old(db), transaction, s, k, current, walk)
        invariant db == old(db)
      {
        current, walk := InsertItem(old(nodes), transaction, s, k, current, walk);
      }
      CountingDone(nodes, headers, itemCounts, db, transaction, s);
      db := db + [transaction];
    }

    /** One iteration of the loop of `assign_prepost_numbers(node)`: numbers the subtree of the child for `it`. */
    method VisitChild(ghost shape: seq<TreeNode>, ghost start: seq<TreeNode>, node: nat, ghost lo: int, ghost plo: int,
                      ghost done: set<int>, ghost below: set<nat>, it: int) returns (ghost below': set<nat>)
      requires Visiting(shape, start, nodes, node, lo, plo, preorderCounter, postorderCounter, done, below)
      requires it in shape[node].children && it !in done
      modifies this`nodes, this`preorderCounter, this`postorderCounter
      ensures Visiting(shape, start, nodes, node, lo, plo, preorderCounter, postorderCounter, done + {it}, below')
      decreases |shape| - node, 0
    {
      var child := nodes[node].children[it];
      ChildFacts(shape, node, it);
      ghost var prev := nodes;
      ghost var pre := preorderCounter;
      ghost var post := postorderCounter;
      ghost var sub := AssignPrepostNumbers(shape, child);
      VisitStep(shape, start, prev, nodes, node, lo, plo, pre, post, done, below, it, sub, preorderCounter, postorderCounter);
      below' := below + sub;
    }

    /**
     * `assign_prepost_numbers(node)`: numbers the subtree of `node` (its links read from `shape`) from the
     * two counters, each advanced by the size of the subtree, so that an ancestor gets the smaller
     * preorder and the larger postorder number.  Only the numbers of the subtree's nodes change.
     */
    method AssignPrepostNumbers(ghost shape: seq<TreeNode>, node: nat) returns (ghost numbered: set<nat>)
      requires Keyed(shape) && SameShape(shape, nodes) && node < |nodes|
      modifies this`nodes, this`preorderCounter, this`postorderCounter
      ensures NumberedSubtree(shape, old(nodes), nodes, node, old(preorderCounter), preorderCounter,
                              old(postorderCounter), postorderCounter, numbered)
      decreases |shape| - node, 2
    {
      ghost var lo := preorderCounter;
      ghost var plo := postorderCounter;
      VisitStart(shape, nodes, node, lo, plo);
      nodes := nodes[node := nodes[node].(preorder := preorderCounter)];
      preorderCounter := preorderCounter + 1;
      ghost var done, below := VisitChildren(shape, old(nodes), node, lo, plo);
      var final := nodes[node := nodes[node].(postorder := postorderCounter)];
      var post := postorderCounter + 1;
      numbered := {node} + below;
      VisitDone(shape, old(nodes), nodes, final, node, lo, plo, preorderCounter, post, done, below, numbered);
      nodes := final;
      postorderCounter := post;
    }

    /** The loop of `assign_prepost_numbers(node)`: visits every child of `node`, in some order. */
    method VisitChildren(ghost shape: seq<TreeNode>, ghost start: seq<TreeNode>, node: nat, ghost lo: int, ghost plo: int)
      returns (ghost done: set<int>, ghost below: set<nat>)
      requires Visiting(shape, start, nodes, node, lo, plo, preorderCounter, postorderCounter, {}, {})
      modifies this`nodes, this`preorderCounter, this`postorderCounter
      ensures Visiting(shape, start, nodes, node, lo, plo, preorderCounter, postorderCounter, done, below)
      ensures forall x :: x in shape[node].children ==> x in done
      decreases |shape| - node, 1
    {
      var rest := nodes[node].children.Keys;
      done, below := {}, {};
      while rest != {}
        invariant Visiting(shape, start, nodes, node, lo, plo, preorderCounter, postorderCounter, done, below)
        invariant forall x :: x in rest ==> x in shape[node].children && x !in done
        invariant forall x :: x in shape[node].children ==> x in rest || x in done
        decreases rest
      {
        NonEmpty(rest);
        var it :| it in rest;
        below := VisitChild(shape, start, node, lo, plo, done, below, it);
        done := done + {it};
        rest := rest - {it};
      }
    }

    /** The `parent` walk of `mine_patterns`: the items above `n`, up to the root (excluded). */
    method AncestorPath(n: nat) returns (path: seq<int>)
      requires Linked(nodes) && 0 < n < |nodes|
      ensures Elems(path) == Anc(nodes, n)
    {
      path := [];
      var parent: nat := nodes[n].parent;
      while parent != 0
        invariant parent < |nodes| && Elems(path) + Elems(Path(nodes, parent)) == Anc(nodes, n)
        decreases parent
      {
        assert Elems(Path(nodes, parent)) == Elems(Path(nodes, nodes[parent].parent)) + {nodes[parent].item};
        path := path + [nodes[parent].item];
        parent := nodes[parent].parent;
      }
    }

    /** `sum(node.count for node in nodes)` over the header list of `item`: the support of the item. */
    method HeaderSupport(item: int) returns (support: nat)
      requires Valid() && item in headers
      ensures support == Support(db, {item})
    {
      var hs := headers[item];
      assert HeaderList(nodes, hs, item);
      support := 0;
      for k := 0 to |hs|
        invariant support == BaseSupport(nodes, hs[..k], {})
      {
        assert hs[..k + 1][..k] == hs[..k];
        support := support + nodes[hs[k]].count;
      }
      assert hs[..|hs|] == hs;
      assert {} + {item} == {item};
    }

    /** `for _ in range(node.count): conditional_base.append(path)`. */
    static method AppendCopies(base: Rows, path: seq<int>, count: nat) returns (r: Rows)
      ensures forall y :: Support(Sets(r), y) == Support(Sets(base), y) + (if y <= Elems(path) then count else 0)
      ensures ItemsOf(Sets(r)) <= ItemsOf(Sets(base)) + Elems(path)
    {
      r := base;
      for j := 0 to count
        invariant forall y :: Support(Sets(r), y) == Support(Sets(base), y) + (if y <= Elems(path) then j else 0)
        invariant ItemsOf(Sets(r)) <= ItemsOf(Sets(base)) + Elems(path)
      {
        SetsSnoc(r, path);
        ItemsOfSnoc(Sets(r), Elems(path));
        forall y ensures Support(Sets(r + [path]), y) == Support(Sets(r), y) + (if y <= Elems(path) then 1 else 0) {
          SupportSnoc(Sets(r), Elems(path), y);
        }
        r := r + [path];
      }
    }

    /**
     * The conditional base of `item`: for every node of the item, its root path repeated as many times
     * as the node counts.  Counting a set of items before `item` in it counts the set with `item` in the
     * tree's transactions, and its items are items of the tree that come before `item`.
     */
    method ConditionalBase(item: int) returns (base: Rows)
      requires Valid() && item in headers
      ensures ConditionalOf(db, itemCounts, item, Sets(base))
    {
      var hs := headers[item];
      assert HeaderList(nodes, hs, item);
      base := [];
      for k := 0 to |hs|
        invariant forall y :: Support(Sets(base), y) == BaseSupport(nodes, hs[..k], y)
        invariant ItemsOf(Sets(base)) <= headers.Keys && Before(itemCounts, ItemsOf(Sets(base)), item)
      {
        var node := hs[k];
        var path := AncestorPath(node);
        AncBefore(nodes, itemCounts, node);
        AncIndexed(nodes, headers, node);
        ghost var before := base;
        base := AppendCopies(base, path, nodes[node].count);
        BaseRowsStep(nodes, hs, k, Sets(before), Sets(base));
      }
      assert hs[..|hs|] == hs;
      assert Counted(nodes, headers, itemCounts, db);
    }

    /** `sorted(self.headers.keys(), key=lambda x: -item_counts[x])`; items counted alike come in any order. */
    method OrderByCount() returns (order: seq<int>)
      ensures Elems(order) == headers.Keys && Distinct(order)
      ensures forall j, k :: 0 <= j < k < |order| ==> Get(itemCounts, order[j]) >= Get(itemCounts, order[k])
    {
      order := [];
      var rest := headers.Keys;
      while rest != {}
        invariant rest <= headers.Keys && Elems(order) == headers.Keys - rest && Distinct(order)
        invariant forall j, k :: 0 <= j < k < |order| ==> Get(itemCounts, order[j]) >= Get(itemCounts, order[k])
        invariant forall j, b :: 0 <= j < |order| && b in rest ==> Get(itemCounts, order[j]) >= Get(itemCounts, b)
        decreases rest
      {
        MostCounted(rest, itemCounts);
        var m :| m in rest && forall b :: b in rest ==> Get(itemCounts, b) <= Get(itemCounts, m);
        assert Elems(order + [m]) == Elems(order) + {m};
        order := order + [m];
        rest := rest - {m};
      }
    }

    /**
     * The conditional tree of `mine_patterns`: a new tree with the given item counts and the base as its
     * transactions, each inserted (the base is its transaction list, so inserting the one inserts the
     * other), then numbered from the root.  It holds the base.
     */
    static method ConditionalTree(base: Rows, counts: map<int, nat>) returns (tree: PrePostTree)
      ensures fresh(tree) && tree.Valid() && tree.db == Sets(base)
      ensures tree.itemCounts == counts && tree.transactions == Sets(base)
    {
      tree := new PrePostTree();
      tree.itemCounts := counts;
      tree.transactions := Sets(base);
      RootOnly(counts);
      tree.AddAllTransactions();
      tree.NumberFromRoot();
    }

    /** `patterns.append((pattern + sub_pattern, sub_support))` for every sub-pattern, after `(pattern, support)`. */
    static method PrefixAll(item: int, support: nat, subPatterns: seq<Pattern>) returns (mine: seq<Pattern>)
      ensures mine == [Pattern([item], support)] + Prefixed(item, subPatterns)
    {
      var pattern := [item];
      mine := [Pattern(pattern, support)];
      for k := 0 to |subPatterns|
        invariant mine == [Pattern(pattern, support)] + Prefixed(item, subPatterns[..k])
      {
        assert subPatterns[..k + 1] == subPatterns[..k] + [subPatterns[k]];
        PrefixedSnoc(item, subPatterns[..k], subPatterns[k]);
        mine := mine + [Pattern(pattern + subPatterns[k].items, subPatterns[k].support)];
      }
      assert subPatterns[..|subPatterns|] == subPatterns;
    }

    /**
     * One iteration of `mine_patterns`, on `item`: when the header sum meets the threshold, reports
     * `[item]` and then `item` prefixed to every pattern mined from its conditional tree.  What it
     * reports is the branch of `item`: the frequent itemsets whose last item in the tree order is `item`.
     * A header item occurs in the tree, so a threshold of zero acts as one.
     */
    method MineItem(item: int, minSupport: nat) returns (mine: seq<Pattern>)
      requires Valid() && item in headers
      ensures ItemBranch(db, itemCounts, Effective(minSupport), item, mine)
      decreases |ItemsOf(db)|, 0
    {
      var support := HeaderSupport(item);
      if support >= minSupport {
        var base := ConditionalBase(item);
        var baseItems := ItemsOf(Sets(base));
        var conditionalTree := ConditionalTree(base, map k | k in itemCounts && k in baseItems :: itemCounts[k]);
        assert ItemsOf(conditionalTree.db) < ItemsOf(db) by {
          assert Counted(nodes, headers, itemCounts, db);
          forall b | b in ItemsOf(Sets(base)) ensures b in ItemsOf(db) && b != item {
            assert KeyLess(itemCounts, b, item);
          }
        }
        ProperSubsetCard(ItemsOf(conditionalTree.db), ItemsOf(db));
        var subPatterns := conditionalTree.MinePatterns(minSupport);
        mine := PrefixAll(item, support, subPatterns);
        Occurs(db, item);
        BranchOf(db, itemCounts, Effective(minSupport), item, Sets(base), subPatterns);
      } else {
        mine := [];
        BranchNone(db, itemCounts, Effective(minSupport), item);
      }
    }

    /** The iteration of `mine_patterns` on `item`: appends its branch to the branches before it. */
    method MineNext(item: int, minSupport: nat, ghost done: set<int>, patterns: seq<Pattern>) returns (next: seq<Pattern>)
      requires Valid() && item in headers && item !in done
      requires MinedUpTo(db, itemCounts, Effective(minSupport), done, patterns)
      ensures MinedUpTo(db, itemCounts, Effective(minSupport), done + {item}, next)
      decreases |ItemsOf(db)|, 1
    {
      var mine := MineItem(item, minSupport);
      MinedStep(db, itemCounts, Effective(minSupport), done, item, patterns, mine);
      next := patterns + mine;
    }

    /**
     * `mine_patterns(min_support)`: every pattern reports its true support, which meets the threshold,
     * over distinct items of the tree's transactions, and no itemset twice; every itemset meeting the
     * threshold, or occurring at all when it is zero, is reported.
     */
    method MinePatterns(minSupport: nat) returns (patterns: seq<Pattern>)
      requires Valid()
      ensures PatternsSound(db, Effective(minSupport), patterns)
      ensures PatternsComplete(db, Effective(minSupport), patterns)
      decreases |ItemsOf(db)|, 2
    {
      var order := OrderByCount();
      ghost var t := Effective(minSupport);
      patterns := [];
      MinedFromNothing(db, itemCounts, t);
      for k := 0 to |order|
        invariant MinedUpTo(db, itemCounts, t, Elems(order[..k]), patterns)
      {
        assert order[..k + 1] == order[..k] + [order[k]];
        assert order[k] !in Elems(order[..k]);
        patterns := MineNext(order[k], minSupport, Elems(order[..k]), patterns);
      }
      assert order[..|order|] == order;
      MinedAllItems(db, itemCounts, t, patterns);
    }

    /**
     * `read_transactions` on transactions already parsed: appends them and counts every item once per
     * transaction holding it.
     */
    method ReadTransactions(lines: DB)
      modifies this`transactions, this`itemCounts
      ensures transactions == old(transactions) + lines
      ensures forall a :: Get(itemCounts, a) == Get(old(itemCounts), a) + Support(lines, {a})
    {
      for i := 0 to |lines|
        invariant transactions == old(transactions) + lines[..i]
        invariant forall a :: Get(itemCounts, a) == Get(old(itemCounts), a) + Support(lines[..i], {a})
      {
        assert lines[..i + 1] == lines[..i] + [lines[i]];
        forall a ensures Support(lines[..i + 1], {a}) == Support(lines[..i], {a}) + (if a in lines[i] then 1 else 0) {
          SupportSnoc(lines[..i], lines[i], {a});
        }
        transactions := transactions + [lines[i]];
        var rest := lines[i];
        while rest != {}
          invariant rest <= lines[i]
          invariant forall a ::
            Get(itemCounts, a) == Get(old(itemCounts), a) + Support(lines[..i], {a}) + (if a in lines[i] - rest then 1 else 0)
          invariant transactions == old(transactions) + lines[..i + 1]
          decreases rest
        {
          NonEmpty(rest);
          var item :| item in rest;
          itemCounts := itemCounts[item := Get(itemCounts, item) + 1];
          rest := rest - {item};
        }
      }
      assert lines[..|lines|] == lines;
    }

    /** `for transaction in self.transactions: self.add_transaction(transaction)`, into a tree holding nothing yet. */
    method AddAllTransactions()
      requires Valid() && db == []
      modifies this`nodes, this`headers, this`db
      ensures Valid() && db == transactions
    {
      for i := 0 to |transactions|
        invariant Valid() && db == transactions[..i]
      {
        ghost var _, _ := AddTransaction(transactions[i]);
        assert transactions[..i + 1] == transactions[..i] + [transactions[i]];
      }
      assert transactions[..|transactions|] == transactions;
    }

    /**
     * `assign_prepost_numbers(self.root)` on a tree not numbered yet: every node gets a distinct preorder
     * and postorder number below the arena's size, an ancestor the smaller preorder and the larger
     * postorder number; the tree stays valid.
     */
    method NumberFromRoot()
      requires Valid() && preorderCounter == 0 && postorderCounter == 0
      modifies this`nodes, this`preorderCounter, this`postorderCounter
      ensures Valid() && |nodes| == |old(nodes)| && preorderCounter == postorderCounter == |nodes|
      ensures Linked(nodes) && Numbered(nodes, nodes, AllNodes(|nodes|), 0, |nodes|, 0, |nodes|)
    {
      ghost var shape := nodes;
      RootSubtree(shape);
      ghost var numbered := AssignPrepostNumbers(shape, 0);
      RenumberedValid(shape, nodes, headers, itemCounts, db);
      NumberedOwn(shape, nodes, numbered, 0, preorderCounter, 0, postorderCounter);
    }

    /**
     * `run_algorithm` on a new tree, with the transactions given instead of read from a file and the
     * patterns returned instead of written out: the threshold is `ceil(num / den * |lines|)`; the tree then
     * holds every transaction, is numbered in pre and post order from the root, and the patterns are
     * exactly the itemsets meeting the threshold, each once, or exactly the itemsets occurring at all
     * when the threshold is zero.
     */
    method RunAlgorithm(lines: DB, num: nat, den: Pos) returns (minSupport: nat, patterns: seq<Pattern>)
      requires Empty()
      modifies this
      ensures minSupport == CeilRatio(|lines|, num, den)
      ensures Valid() && db == lines && transactions == lines
      ensures Numbered(nodes, nodes, AllNodes(|nodes|), 0, |nodes|, 0, |nodes|)
      ensures PatternsSound(lines, minSupport, patterns)
      ensures PatternsSound(lines, Effective(minSupport), patterns)
      ensures PatternsComplete(lines, Effective(minSupport), patterns)
    {
      ReadTransactions(lines);
      minSupport := CeilRatio(|transactions|, num, den);
      RootOnly(itemCounts);
      AddAllTransactions();
      NumberFromRoot();
      patterns := MinePatterns(minSupport);
    }
  }
}
