# Frequent and closed itemset miners

This project models the mining core of a collection of Python itemset miners.
It covers eight frequent-itemset miners: ECLAT, dECLAT, H-Mine, RELIM, LCMFreq, FIN,
DFIN and PrePost. It also covers two closed-itemset miners: AprioriClose and LCM.
Each miner reads a transaction database and reports itemsets with their supports. The
support of an itemset is the number of transactions that hold all of its items.

All miners share one vocabulary, module `Mining` (`mining.dfy`):
- A database is a sequence of transactions, and each transaction is a set of items.
- `Support(db, x)` counts the transactions holding `x`.
- `TidSet(db, x)` is the set of indices of those transactions.
- A `Pattern` is an item list paired with a recorded support.
- A relative threshold `ratio * n` is rounded up by `CeilRatio`. `MeetsRatio` proves
  that comparing a count with the exact ratio is the same test as comparing it with
  that ceiling.
- H-Mine, RELIM and PrePost only branch on items that occur in their rows. A threshold of
  zero therefore reports what a threshold of one reports. `Effective(minsup)` is that
  threshold, and their contracts are stated at it.

Each miner is proved against a specification written in these terms:
- Sound: every reported pattern carries its true support, and that support meets the
  threshold.
- Without repeats: no itemset is reported twice.
- Complete: every frequent itemset over the database items is reported.
- The closed miners report exactly the frequent closed itemsets. A closed itemset is
  one whose every proper superset is held by fewer transactions.

Module `Search` (`search.dfy`) holds the argument shared by the depth-first miners.
Those miners branch on a candidate item and recurse on the larger candidates. The
patterns reached through a branch are exactly the frequent extensions whose least new
item is that branch's item.

The miners that keep state in objects are classes:
- dECLAT's `FrequentItemsets`;
- LCMFreq, FIN and DFIN;
- FIN's `Nodeset`;
- `PrePostTree`;
- AprioriClose's `Itemsets` and `AprioriCloseAlgo`;
- LCM's `Itemsets` and `AlgoLCM`.

Their methods change fields named in `modifies` clauses. The loops of the source are
`while` and `for` loops with invariants. Recursion stays recursion.

## Model

| member | source | states |
|---|---|---|
| Mining.CeilRatio | 05_Eclat_and_DEclat/Python/ECLAT.py:27 | the rounded-up threshold `ceil(n * num / den)`: the least count whose multiple of `den` reaches `n * num` |
| Mining.MeetsRatio | 04_Relim/Python/RELIM.py:22-32 | a count compared with the exact fraction `num / den * n` passes exactly when it reaches `CeilRatio(n, num, den)` |
| Mining.ContainsAll | 12_AprioriClose/Python/AprioriClose.py:67-68 | the containment test holds iff every item of the list is in the transaction |
| Mining.CountSupport | 07_FIN/Python/FIN.py:67-72 | the counting scan returns the support of the set of the list's items |
| Mining.CountItems | 07_FIN/Python/FIN.py:36-41 | the item counter has exactly the items of the database as keys, each mapped to its support |
| Mining.Project | 04_Relim/Python/RELIM.py:39 | the projection on an item has one transaction per transaction holding it, none of which holds the item |
| Mining.ProjectSupport | 04_Relim/Python/RELIM.py:39 | the support of an itemset without `a` in the projection on `a` is the support of the itemset plus `a` in the database |
| Mining.ProjectItems | 04_Relim/Python/RELIM.py:39 | the projection on `a` holds only items of the database other than `a` |
| Mining.Covering | 15_LCM/Python/LCM.py:47-52 | the transactions holding `x`, as many as its support, each holding `x` |
| Mining.CoveringSupport | 15_LCM/Python/LCM.py:102-108 | counting `y` among the transactions holding `x` gives the support of `x + y` |
| Mining.TidSetOfUnion | 05_Eclat_and_DEclat/Python/ECLAT.py:21 | the tid-set of a union is the intersection of the tid-sets |
| Mining.SupportIsTidSetSize | 05_Eclat_and_DEclat/Python/ECLAT.py:15 | the support of an itemset is the size of its tid-set |
| Mining.SupportAntimonotone | 12_AprioriClose/Python/AprioriClose.py:145 | a superset is held by at most as many transactions as its subset |
| Mining.SortedList | 15_LCM/Python/LCM.py:7 | `sorted` on a set gives the strictly increasing list of exactly its items |
| Mining.IncreasingDetermined | 12_AprioriClose/Python/AprioriClose.py:145 | two strictly increasing lists with the same items are equal |
| Mining.MinOf | 06_H_Mine/Python/HMine.py:27 | the least item of a non-empty set |
| Search.FromEmpty | 11_LCMFreq/Python/LCMFreq.py:27-30 | a sound and complete search from the empty prefix over all frequent items reports exactly the frequent itemsets, each once |
| Search.SoundFromEmpty | 06_H_Mine/Python/HMine.py:48 | a sound search from the empty prefix reports only frequent itemsets, with their supports, each once |
| Search.ExploreDone | 11_LCMFreq/Python/LCMFreq.py:48-57 | after branching on every candidate, the patterns found are sound and complete for the prefix |
| Search.ExploreFiltered | 06_H_Mine/Python/HMine.py:26-28 | branching only on the candidates that meet the threshold loses nothing |
| Search.BranchOf | 11_LCMFreq/Python/LCMFreq.py:54-57 | the branch on an item reports the extended prefix and then exactly the frequent extensions whose least new item is that item |
| Search.BranchNone | 11_LCMFreq/Python/LCMFreq.py:54 | skipping an infrequent item loses nothing: no frequent extension has it as least new item |
| Search.NothingAbove | 07_FIN/Python/FIN.py:54-57 | below an infrequent prefix a sound search reports nothing |
| Search.BranchesDiffer | 11_LCMFreq/Python/LCMFreq.py:48 | patterns of different branches are different itemsets |
| Eclat.KeysMember | 05_Eclat_and_DEclat/Python/ECLAT.py:12-13 | an item is a key of the dictionary iff some entry holds it |
| Eclat.PopEntry | 05_Eclat_and_DEclat/Python/ECLAT.py:13 | `popitem` removes the last entry: a key not among the remaining ones, whose tid-set is that of the prefix plus its item |
| Eclat.Extensions | 05_Eclat_and_DEclat/Python/ECLAT.py:19-23 | the new dictionary keeps exactly the remaining keys whose intersection reaches the threshold, with the tid-set of the extended itemset |
| Eclat.PopStep | 05_Eclat_and_DEclat/Python/ECLAT.py:12-24 | after popping a frequent item and recursing, every frequent extension whose least popped item is that item is listed |
| Eclat.SkipStep | 05_Eclat_and_DEclat/Python/ECLAT.py:17 | popping an infrequent item keeps the search invariant |
| Eclat.AllPopped | 05_Eclat_and_DEclat/Python/ECLAT.py:12 | once the dictionary is empty, every frequent extension of the prefix by its keys is listed |
| Eclat.Eclat | 05_Eclat_and_DEclat/Python/ECLAT.py:11-24 | the patterns appended are frequent with their true supports, extend the prefix by dictionary keys, are distinct, and include every frequent such extension |
| Eclat.AddTransaction | 05_Eclat_and_DEclat/Python/ECLAT.py:31-36 | after one more transaction the item map holds each item seen with its tid-set so far |
| Eclat.ItemTidSets | 05_Eclat_and_DEclat/Python/ECLAT.py:30-36 | the item map has exactly the items of the database as keys, each with its tid-set |
| Eclat.FrequentEntries | 05_Eclat_and_DEclat/Python/ECLAT.py:38 | the filtered dictionary holds exactly the items meeting the threshold, with their tid-sets |
| Eclat.FrequentStep | 05_Eclat_and_DEclat/Python/ECLAT.py:38 | one item is kept, with its tid-set, exactly when it meets the threshold |
| Eclat.RunEclat | 05_Eclat_and_DEclat/Python/ECLAT.py:26-42 | with the rounded-up threshold, the result lists every non-empty frequent itemset once, with its support, and nothing else |
| Declat.TableLevel | 05_Eclat_and_DEclat/Python/dECLAT.py:12-16 | level `l` of the table is the recorded patterns of length `l`, in order |
| Declat.FrequentItemsets.Levels | 05_Eclat_and_DEclat/Python/dECLAT.py:12-16 | the ten levels hold exactly the recorded patterns of each length, in recording order |
| Declat.FrequentItemsets.constructor | 05_Eclat_and_DEclat/Python/dECLAT.py:11-12 | ten empty levels |
| Declat.FrequentItemsets.AddItemset | 05_Eclat_and_DEclat/Python/dECLAT.py:14-16 | a pattern shorter than ten is appended to the level of its length and nothing else changes; a longer one is the out-of-range failure |
| Declat.Children | 05_Eclat_and_DEclat/Python/dECLAT.py:39-44 | the new dictionary holds exactly the larger keys whose intersection reaches the threshold, with the tid-sets of the extended itemset |
| Declat.TooLongLift | 05_Eclat_and_DEclat/Python/dECLAT.py:38 | a failing deeper branch shows a frequent itemset of length at least ten |
| Declat.Declat | 05_Eclat_and_DEclat/Python/dECLAT.py:33-45 | the table records the patterns found; if no level overflowed they are sound and complete for the prefix, otherwise a frequent itemset of length ten or more exists |
| Declat.DeclatEntry | 05_Eclat_and_DEclat/Python/dECLAT.py:34-45 | one entry of the dictionary is recorded and explored, with the same alternative |
| Declat.Descend | 05_Eclat_and_DEclat/Python/dECLAT.py:39-45 | the recursion below a recorded entry is sound and complete for that branch, or overflows |
| Declat.FromEmptyPrefix | 05_Eclat_and_DEclat/Python/dECLAT.py:64-66 | from the filtered singleton dictionary the search reports only frequent itemsets, and all of them when nothing overflowed |
| Declat.RunDeclat | 05_Eclat_and_DEclat/Python/dECLAT.py:55-67 | with the rounded-up threshold the table lists only frequent itemsets by length, and all of them unless a frequent itemset of length ten or more exists |
| HMine.Larger | 06_H_Mine/Python/HMine.py:34 | the filtered transaction keeps exactly its items larger than the item |
| HMine.Shift | 06_H_Mine/Python/HMine.py:34 | the projection keeps one row per supporting transaction |
| HMine.ItemSupports | 06_H_Mine/Python/HMine.py:13-21 | the map from each item to the transactions holding it has exactly the items of the rows as keys |
| HMine.ContainingSize | 06_H_Mine/Python/HMine.py:19 | an item's list of transactions is as long as the item's support |
| HMine.ShiftSupport | 06_H_Mine/Python/HMine.py:34 | in the projection on `a`, an itemset of larger items has the support of that itemset plus `a` |
| HMine.ProjectConditional | 06_H_Mine/Python/HMine.py:29-37 | the projected rows are the conditional database of the extended prefix, over larger items only |
| HMine.ChildKeys | 06_H_Mine/Python/HMine.py:34-36 | every larger item frequent with the extended prefix occurs in the projection |
| HMine.Shrinks | 06_H_Mine/Python/HMine.py:37 | the projection has fewer distinct items, so the recursion ends |
| HMine.GetItemSupport | 06_H_Mine/Python/HMine.py:13-21 | `get_item_support` builds that map; each list is as long as the item's support |
| HMine.HMineItem | 06_H_Mine/Python/HMine.py:29-37 | one valid item is reported with its support, and its branch is sound and complete at the threshold in effect (`Effective`: zero acts as one, since the item occurs) |
| HMine.HMine | 06_H_Mine/Python/HMine.py:23-39 | the result is sound for the prefix and complete for it, at the threshold in effect |
| HMine.RunHMine | 06_H_Mine/Python/HMine.py:41-48 | with the rounded-up threshold the result lists exactly the frequent itemsets once each, or exactly the occurring itemsets when the threshold is zero |
| Relim.GetSupport | 04_Relim/Python/RELIM.py:11-17 | the counter maps exactly the database items to their supports |
| Relim.LeastCount | 04_Relim/Python/RELIM.py:34 | a non-empty item set has an item of least count |
| Relim.SortByCount | 04_Relim/Python/RELIM.py:34 | the items listed once each, in ascending count order |
| Relim.ItemFacts | 04_Relim/Python/RELIM.py:35-40 | the local count of an item is the support of the extended prefix, and the projection is the conditional database of the extended prefix with fewer items |
| Relim.Transfer | 04_Relim/Python/RELIM.py:39-40 | a frequent extension holding the item is a frequent extension of the extended prefix in the projection |
| Relim.FoundDone | 04_Relim/Python/RELIM.py:32-40 | once every frequent local item is explored, every frequent extension of the prefix is recorded |
| Relim.RecordStep | 04_Relim/Python/RELIM.py:37 | recording a frequent itemset under its set of items keeps the record true |
| Relim.Mine | 04_Relim/Python/RELIM.py:26-40 | the map only gains true frequent itemsets extending the prefix, and gains every frequent extension, at the threshold in effect |
| Relim.MineItem | 04_Relim/Python/RELIM.py:35-40 | one frequent item records the extended prefix and, recursively, every frequent extension of it, at the threshold in effect |
| Relim.RunRelim | 04_Relim/Python/RELIM.py:19-43 | the result maps exactly the frequent itemsets to their supports, or exactly the occurring itemsets when the threshold is zero |
| LCMFreq.CountFrontier | 11_LCMFreq/Python/LCMFreq.py:41-46 | each frontier item is counted with its support in the current dataset |
| LCMFreq.Remaining | 11_LCMFreq/Python/LCMFreq.py:56 | the next frontier is exactly the larger frontier items whose count meets the threshold |
| LCMFreq.ItemFacts | 11_LCMFreq/Python/LCMFreq.py:49-57 | the count of an item is the support of the extended prefix, the filtered dataset is its conditional database, and the next frontier misses no frequent extension |
| LCMFreq.LCMFreq.constructor | 11_LCMFreq/Python/LCMFreq.py:6-12 | the ratio is stored and the results start empty |
| LCMFreq.LCMFreq.OutputFrequentItemset | 11_LCMFreq/Python/LCMFreq.py:59-61 | one pattern is appended and the count grows by one |
| LCMFreq.LCMFreq.LcmItem | 11_LCMFreq/Python/LCMFreq.py:49-57 | one frontier item: the patterns appended are its branch, and the search invariant advances |
| LCMFreq.LCMFreq.LcmLoop | 11_LCMFreq/Python/LCMFreq.py:48-57 | the loop over the sorted frontier explores every frontier item |
| LCMFreq.LCMFreq.RecursiveLcm | 11_LCMFreq/Python/LCMFreq.py:37-57 | the patterns appended are sound and complete for the prefix, and the count follows the list |
| LCMFreq.LCMFreq.RunAlgorithm | 11_LCMFreq/Python/LCMFreq.py:14-35 | with the rounded-up threshold the list holds exactly the frequent itemsets, once each, with their supports |
| FinNodes.Items | 07_FIN/Python/FIN.py:51-52 | the items of a node list, position by position |
| FinNodes.ItemsAbove | 07_FIN/Python/FIN.py:61-62 | the items kept by the extension are exactly the larger ones, and there are fewer of them when the current item was among them |
| FinNodes.AboveDistinct | 07_FIN/Python/FIN.py:59-65 | extension keeps a list free of repeats |
| FinNodes.NodeFacts | 07_FIN/Python/FIN.py:51-57 | the recursion receives the larger nodes only, a shorter list, and a strictly increasing prefix |
| FinNodes.Nodeset.constructor | 07_FIN/Python/FIN.py:15-16 | an empty node list |
| FinNodes.Nodeset.AddNode | 07_FIN/Python/FIN.py:18-19 | the node is appended and the sum grows by its support |
| FinNodes.Nodeset.GetSupport | 07_FIN/Python/FIN.py:21-22 | the sum of the node supports, which bounds each of them |
| Fin.FIN.constructor | 07_FIN/Python/FIN.py:25-29 | stores the database and ratio, the number of transactions, and an empty result |
| Fin.FIN.MinCount | 07_FIN/Python/FIN.py:46 | `count / n >= ratio` holds exactly for the counts reaching the rounded-up threshold |
| Fin.FIN.CountSingleItems | 07_FIN/Python/FIN.py:36-41 | the counter maps exactly the database items to their supports |
| Fin.FIN.CreateInitialNodes | 07_FIN/Python/FIN.py:43-48 | one node per item meeting the ratio, carrying its count, without repeats |
| Fin.FIN.CalculateSupport | 07_FIN/Python/FIN.py:67-72 | the support of the itemset, all transactions for the empty one |
| Fin.FIN.ExtendNodes | 07_FIN/Python/FIN.py:59-65 | the larger nodes in order, each carrying the current node's support |
| Fin.VisitBranch | 07_FIN/Python/FIN.py:56-57 | the branch on an item visits exactly the combinations whose least new item is that item, frequent or not |
| Fin.VisitDone | 07_FIN/Python/FIN.py:51-57 | the loop visits every combination of the frontier above the prefix |
| Fin.FIN.MineNode | 07_FIN/Python/FIN.py:51-57 | one node: its branch is sound and complete, and exactly its combinations are visited |
| Fin.FIN.MineNodes | 07_FIN/Python/FIN.py:50-57 | the patterns appended are sound and complete for the prefix, and every combination of the frontier is visited |
| Fin.FIN.Run | 07_FIN/Python/FIN.py:31-34 | the earlier results stay, and what is appended is exactly the frequent itemsets, once each, with their supports |
| Dfin.DFIN.constructor | 08_DFIN/Python/DFIN.py:25-29 | stores the database and ratio, the number of transactions, and an empty result |
| Dfin.DFIN.MinCount | 08_DFIN/Python/DFIN.py:46 | `count >= ratio * n` holds exactly for the counts reaching the rounded-up threshold |
| Dfin.DFIN.CountSingleItems | 08_DFIN/Python/DFIN.py:36-41 | the counter maps exactly the database items to their supports |
| Dfin.DFIN.CreateInitialNodes | 08_DFIN/Python/DFIN.py:43-48 | one node per item reaching the threshold, carrying its count, without repeats |
| Dfin.DFIN.CalculateSupport | 08_DFIN/Python/DFIN.py:67-72 | the support of the itemset, all transactions for the empty one |
| Dfin.DFIN.PairNode | 08_DFIN/Python/DFIN.py:63 | the new node carries the support of the pair it forms with the current item |
| Dfin.DFIN.ExtendNodes | 08_DFIN/Python/DFIN.py:59-65 | the larger nodes in order, each carrying its pair support with the current item |
| Dfin.DFIN.MineNode | 08_DFIN/Python/DFIN.py:51-57 | one node: recorded and recursed on only when frequent; its branch is sound and complete |
| Dfin.DFIN.MineNodes | 08_DFIN/Python/DFIN.py:50-57 | the patterns appended are sound and complete for the prefix |
| Dfin.DFIN.Run | 08_DFIN/Python/DFIN.py:31-34 | the earlier results stay, and what is appended is exactly the frequent itemsets, once each, with their supports |
| PrePostArena.KeyLeast | 10_PrePost_and_PrePostPlus/Python/PrePost.py:26 | a non-empty item set has a first item in the order by descending count, then item |
| PrePostArena.SortedPrefix | 10_PrePost_and_PrePostPlus/Python/PrePost.py:26-34 | an itemset made of items before the last one lies in the sorted transaction iff it lies in its prefix |
| PrePostArena.PathFrame | 10_PrePost_and_PrePostPlus/Python/PrePost.py:28-33 | adding nodes or counts does not change the root path of an existing node |
| PrePostArena.AncBefore | 10_PrePost_and_PrePostPlus/Python/PrePost.py:55-58 | the items above a node all come before its item in the tree order |
| PrePostArena.CreateShape | 10_PrePost_and_PrePostPlus/Python/PrePost.py:28-32 | a created child keeps the tree well shaped and its root path is the sorted prefix walked so far |
| PrePostArena.CreateCount | 10_PrePost_and_PrePostPlus/Python/PrePost.py:28-32 | a created child, listed in its header, keeps the header sums counting the transactions |
| PrePostArena.BumpCount | 10_PrePost_and_PrePostPlus/Python/PrePost.py:33-34 | counting one more on the node reached adds this transaction to the header sums of its item |
| PrePostArena.CountingDone | 10_PrePost_and_PrePostPlus/Python/PrePost.py:27-34 | after the whole walk the header sums count the database with this transaction |
| PrePostArena.NumberedJoin | 10_PrePost_and_PrePostPlus/Python/PrePost.py:39-41 | numbering the children's subtrees one after another numbers their union in one range |
| PrePost.PrePostTree.constructor | 10_PrePost_and_PrePostPlus/Python/PrePost.py:16-22 | a tree holding the root only, with no counts, transactions or numbers |
| PrePost.PrePostTree.SortItems | 10_PrePost_and_PrePostPlus/Python/PrePost.py:26 | the transaction's items, in descending count and then ascending item order |
| PrePost.PrePostTree.InsertItem | 10_PrePost_and_PrePostPlus/Python/PrePost.py:27-34 | one step of the walk: finds or creates the child, counts one more on it, and keeps the insertion invariant |
| PrePost.PrePostTree.AddTransaction | 10_PrePost_and_PrePostPlus/Python/PrePost.py:24-34 | the tree stays well shaped, its header sums now count this transaction too, and the walk visits the sorted items |
| PrePost.PrePostTree.AssignPrepostNumbers | 10_PrePost_and_PrePostPlus/Python/PrePost.py:36-42 | the subtree gets consecutive pre-order and post-order numbers, a node's pre number below and post number above those of its descendants |
| PrePost.PrePostTree.VisitChildren | 10_PrePost_and_PrePostPlus/Python/PrePost.py:39-40 | every child's subtree is numbered, one after another |
| PrePost.PrePostTree.NumberFromRoot | 10_PrePost_and_PrePostPlus/Python/PrePost.py:87 | numbering from the root numbers every node, both counters ending at the number of nodes |
| PrePost.PrePostTree.AncestorPath | 10_PrePost_and_PrePostPlus/Python/PrePost.py:54-58 | the path read upwards holds exactly the items above the node |
| PrePost.PrePostTree.HeaderSupport | 10_PrePost_and_PrePostPlus/Python/PrePost.py:47-48 | the sum of counts over an item's header list is the item's support |
| PrePost.PrePostTree.AppendCopies | 10_PrePost_and_PrePostPlus/Python/PrePost.py:59-60 | appending a path `count` times adds `count` to the support of every itemset on the path |
| PrePost.PrePostTree.ConditionalBase | 10_PrePost_and_PrePostPlus/Python/PrePost.py:52-60 | the base is the conditional database of the item: an itemset of earlier items has the support it has with the item |
| PrePost.PrePostTree.OrderByCount | 10_PrePost_and_PrePostPlus/Python/PrePost.py:46 | the header items listed once each, by descending count |
| PrePost.PrePostTree.ConditionalTree | 10_PrePost_and_PrePostPlus/Python/PrePost.py:61-66 | a fresh well-shaped tree over the base, with the given counts |
| PrePost.PrePostTree.PrefixAll | 10_PrePost_and_PrePostPlus/Python/PrePost.py:50-69 | the item alone, then the item before every sub-pattern |
| PrePost.PrePostTree.MineItem | 10_PrePost_and_PrePostPlus/Python/PrePost.py:47-69 | the item's branch: sound, only itemsets whose last item in the tree order is this item, and all of them, at the threshold in effect (zero acts as one, since a header item occurs) |
| PrePost.PrePostTree.MineNext | 10_PrePost_and_PrePostPlus/Python/PrePost.py:46-69 | one iteration of the header loop appends the item's branch and keeps the output sound and complete for the items done |
| PrePost.PrePostTree.MinePatterns | 10_PrePost_and_PrePostPlus/Python/PrePost.py:44-70 | the patterns are sound, without repeats and complete, at the threshold in effect |
| PrePost.PrePostTree.ReadTransactions | 10_PrePost_and_PrePostPlus/Python/PrePost.py:72-78 | the transactions are appended and each item's count grows by its support among them |
| PrePost.PrePostTree.AddAllTransactions | 10_PrePost_and_PrePostPlus/Python/PrePost.py:85-86 | the tree holds every read transaction |
| PrePost.PrePostTree.RunAlgorithm | 10_PrePost_and_PrePostPlus/Python/PrePost.py:80-90 | with the rounded-up threshold the tree is built and numbered, and the patterns are exactly the frequent itemsets once each, or exactly the occurring itemsets when the threshold is zero |
| PrePostPatterns.TopUnique | 10_PrePost_and_PrePostPlus/Python/PrePost.py:46 | an itemset has one last item in the tree order |
| PrePostPatterns.TopExists | 10_PrePost_and_PrePostPlus/Python/PrePost.py:46 | every non-empty itemset has a last item in the tree order |
| PrePostPatterns.MinedStep | 10_PrePost_and_PrePostPlus/Python/PrePost.py:46-69 | adding an item's branch keeps the output sound and covers the itemsets topped by that item |
| PrePostPatterns.MinedAllItems | 10_PrePost_and_PrePostPlus/Python/PrePost.py:44-70 | after every header item the output is sound and complete |
| PrePostPatterns.PrefixedSound | 10_PrePost_and_PrePostPlus/Python/PrePost.py:67-69 | prefixing the item to sound conditional patterns gives sound patterns topped by the item |
| PrePostPatterns.PrefixedComplete | 10_PrePost_and_PrePostPlus/Python/PrePost.py:67-69 | every frequent itemset topped by the item is the item alone or the item before a conditional pattern |
| PrePostPatterns.BranchOf | 10_PrePost_and_PrePostPlus/Python/PrePost.py:47-69 | the item's branch built from its conditional tree is sound and complete for that item |
| AprioriClose.SameEquivalence | 12_AprioriClose/Python/AprioriClose.py:22-23 | `__eq__` is an equivalence, and equality on sorted item lists |
| AprioriClose.Contains | 12_AprioriClose/Python/AprioriClose.py:119 | `in` on a level holds iff some member is `__eq__` to the itemset |
| AprioriClose.Itemsets.constructor | 12_AprioriClose/Python/AprioriClose.py:26-28 | the name is stored and the levels hold one empty level |
| AprioriClose.Itemsets.AddItemset | 12_AprioriClose/Python/AprioriClose.py:30-33 | the levels are padded up to `k` and the itemset is appended at level `k`, adding exactly one entry |
| AprioriClose.AddedShape | 12_AprioriClose/Python/AprioriClose.py:30-33 | the padded levels keep every other level and end level `k` with the itemset |
| AprioriClose.Itemsets.GetItemsetsCount | 12_AprioriClose/Python/AprioriClose.py:35-36 | the number of itemsets over all levels |
| AprioriClose.Padded | 12_AprioriClose/Python/AprioriClose.py:126-127 | levels padded with empty ones to at least `n` |
| AprioriClose.FlatPadded | 12_AprioriClose/Python/AprioriClose.py:126-127 | padding adds no itemset |
| AprioriClose.CountSlots | 12_AprioriClose/Python/AprioriClose.py:86-89 | the thousand counters hold the support of each item |
| AprioriClose.FirstLevel | 12_AprioriClose/Python/AprioriClose.py:91-97 | level one holds exactly the frequent single items in ascending order, also recorded at level one |
| AprioriClose.CandidateUnion | 12_AprioriClose/Python/AprioriClose.py:110-112 | a pair is a candidate iff the union of its items has `k + 1` items |
| AprioriClose.AprioriCloseAlgo.JoinPair | 12_AprioriClose/Python/AprioriClose.py:107-121 | one pair: its candidate is counted, and admitted and recorded at level `k + 1` when frequent and not yet on the level |
| AprioriClose.AprioriCloseAlgo.Admit | 12_AprioriClose/Python/AprioriClose.py:117-121 | a candidate of `k + 1` items is listed and recorded exactly when it meets the threshold and no equal itemset is on the level yet |
| AprioriClose.AdmittedFacts | 12_AprioriClose/Python/AprioriClose.py:110-121 | what a pair admits is frequent with its support, lists the union when frequent, and adds at most one itemset |
| AprioriClose.AprioriCloseAlgo.Record | 12_AprioriClose/Python/AprioriClose.py:121 | recording appends exactly that itemset to the flattened levels |
| AprioriClose.AprioriCloseAlgo.JoinRow | 12_AprioriClose/Python/AprioriClose.py:106-121 | one row of pairs is joined and recorded, counting its candidates |
| AprioriClose.AprioriCloseAlgo.JoinColumn | 12_AprioriClose/Python/AprioriClose.py:106-121 | one pair more of the row is joined: the level stays good, the recorded levels and the candidate count follow it |
| AprioriClose.AprioriCloseAlgo.JoinRows | 12_AprioriClose/Python/AprioriClose.py:105-121 | every pair of the level is joined |
| AprioriClose.JoinComplete | 12_AprioriClose/Python/AprioriClose.py:105-121 | joining all pairs of the exact level `k` lists every frequent itemset of size `k + 1` |
| AprioriClose.AprioriCloseAlgo.JoinLevel | 12_AprioriClose/Python/AprioriClose.py:102-121 | the next level is exactly the frequent itemsets of size `k + 1`, each once, all recorded; the candidate count grows by the candidate pairs |
| AprioriClose.MinedAll | 12_AprioriClose/Python/AprioriClose.py:99-123 | when a level comes out empty, every frequent itemset has been mined and none is larger |
| AprioriClose.AprioriCloseAlgo.MineLevels | 12_AprioriClose/Python/AprioriClose.py:99-123 | the levels record exactly the frequent itemsets, each once, and `max_level` is the size of the largest; the levels joined are exactly the frequent itemsets of each size up to `max_level`, `candidates_count` grows by their candidate pairs, and every frequent itemset of two or more items was a counted candidate |
| AprioriClose.AprioriCloseAlgo.MineLevel | 12_AprioriClose/Python/AprioriClose.py:99-123 | one pass of the loop: `max_level` becomes `k`, level `k` is joined into exactly the frequent itemsets of size `k + 1`, and its candidates are added to the count |
| AprioriClose.LongestAtExit | 12_AprioriClose/Python/AprioriClose.py:99-101 | the loop leaves at level `k > 1` iff a frequent itemset exists, and then `k - 1` is the largest size |
| AprioriClose.AprioriCloseAlgo.PadLevels | 12_AprioriClose/Python/AprioriClose.py:126-127 | the levels are padded up to `max_level + 1`, keeping every itemset |
| AprioriClose.IsClosed | 12_AprioriClose/Python/AprioriClose.py:142-149 | the inner scan says closed iff no recorded itemset is a superset with the same count and other items |
| AprioriClose.KeptOf | 12_AprioriClose/Python/AprioriClose.py:138-151 | the kept itemsets are exactly the scanned ones that nothing subsumes |
| AprioriClose.KeptIsClosed | 12_AprioriClose/Python/AprioriClose.py:142-149 | against the complete list of frequent itemsets, the filter keeps an itemset iff it is closed |
| AprioriClose.AprioriCloseAlgo.FilterEntry | 12_AprioriClose/Python/AprioriClose.py:140-151 | one itemset is added to the closed levels exactly when it is non-empty and kept |
| AprioriClose.AprioriCloseAlgo.FilterLevel | 12_AprioriClose/Python/AprioriClose.py:139-151 | one level is filtered into the closed levels |
| AprioriClose.AprioriCloseAlgo.FilterLevels | 12_AprioriClose/Python/AprioriClose.py:137-151 | the closed levels hold exactly the kept itemsets, each at the level of its size |
| AprioriClose.AprioriCloseAlgo.FilterClosedItemsets | 12_AprioriClose/Python/AprioriClose.py:136-153 | the result replaces the frequent itemsets and holds exactly the kept ones, at the level of their size |
| AprioriClose.ClosedFromMined | 12_AprioriClose/Python/AprioriClose.py:134-153 | filtering the complete list gives every frequent closed itemset exactly once, with its support, and nothing else |
| AprioriClose.AprioriCloseAlgo.constructor | 12_AprioriClose/Python/AprioriClose.py:71-77 | empty frequent itemsets and zeroed counters |
| AprioriClose.AprioriCloseAlgo.RunAlgorithm | 12_AprioriClose/Python/AprioriClose.py:79-134 | with the rounded-up threshold the result is every non-empty frequent closed itemset once, with its support, each at the level of its size; `max_level` is the size of the largest frequent itemset; `candidates_count` grows by the candidate pairs of the levels joined, each level exactly the frequent itemsets of its size |
| LCM.MakeItemset | 15_LCM/Python/LCM.py:5-8 | the itemset stores its items sorted and its support; an ascending list is kept as is |
| LCM.SortedIsIdentity | 15_LCM/Python/LCM.py:82 | sorting the items of an ascending list gives the list back |
| LCM.Appended | 15_LCM/Python/LCM.py:15-16 | the list for the itemset's length gains it at the end; the other lists are unchanged |
| LCM.Itemsets.constructor | 15_LCM/Python/LCM.py:11-13 | the name is stored and there are no lists |
| LCM.Itemsets.AddItemset | 15_LCM/Python/LCM.py:15-16 | appends the itemset to the list for its length |
| LCM.NumItems | 15_LCM/Python/LCM.py:41-45 | fails exactly on a database without items; otherwise one more than the largest item |
| LCM.RangeEnd | 15_LCM/Python/LCM.py:84 | `range(n)` is empty for negative `n` |
| LCM.ProjectDatabase | 15_LCM/Python/LCM.py:47-52 | the transactions holding every item of the itemset, unchanged and in order |
| LCM.CoveringTwice | 15_LCM/Python/LCM.py:88 | projecting a projection on a larger itemset is projecting the database on it |
| LCM.CoveringAll | 15_LCM/Python/LCM.py:73 | the projection on the empty itemset is the whole database |
| LCM.IsClosed | 15_LCM/Python/LCM.py:102-110 | `is_closed` holds iff no non-negative outside item keeps the support of the itemset in the dataset |
| LCM.ClosedCovering | 15_LCM/Python/LCM.py:79 | run on the projection with the itemset's support, that test is closedness in the whole database |
| LCM.ClosedIffNoEqualSuperset | 15_LCM/Python/LCM.py:102-110 | for an itemset with positive support, closed iff every proper superset adding non-negative items has smaller support |
| LCM.ChainLength | 15_LCM/Python/LCM.py:84-86 | an ascending itemset over `range(limit)` has at most `limit` items |
| LCM.TargetWithoutBound | 15_LCM/Python/LCM.py:84-89 | for a positive threshold the bound `range(num_items())` excludes no frequent itemset |
| LCM.AlgoLCM.constructor | 15_LCM/Python/LCM.py:62-66 | stores the threshold and database, with empty result collections |
| LCM.AlgoLCM.Visit | 15_LCM/Python/LCM.py:77-82 | a popped itemset is recorded in both collections exactly when it is non-empty, frequent and closed |
| LCM.AlgoLCM.ExtendItem | 15_LCM/Python/LCM.py:85-90 | one item: pushes the extension when it is past the last item and its projection is large enough; the `closed_itemsets` test never skips one |
| LCM.ExtendFacts | 15_LCM/Python/LCM.py:85-90 | an item past the last one gives a sorted key not yet recorded; the children grow by the extension exactly when its projection is large enough |
| LCM.AlgoLCM.Extend | 15_LCM/Python/LCM.py:84-90 | pushes exactly the extensions by a larger item with enough transactions, and they weigh less than the popped entry |
| LCM.SearchStep | 15_LCM/Python/LCM.py:75-90 | one pop-visit-push step keeps the search invariant |
| LCM.TotalStep | 15_LCM/Python/LCM.py:75-90 | the stack's weight drops with each step, so the loop ends |
| LCM.MirrorAdd | 15_LCM/Python/LCM.py:81-82 | the levels and `closed_itemsets` list the same itemsets, each once, with the same supports |
| LCM.AlgoLCM.Pop | 15_LCM/Python/LCM.py:76-90 | one loop iteration keeps the search invariant and shrinks the stack's weight, or fails on a database without items |
| LCM.AlgoLCM.RunAlgorithm | 15_LCM/Python/LCM.py:68-90 | fails iff the database has no item; otherwise `closed_itemsets` maps exactly the non-empty ascending frequent closed itemsets to their supports, and the levels list the same itemsets once each |

## Left out

- File reading, printing, output formatting, timing, memory logging and the `__main__` drivers are not modelled. The database and the ratio are parameters.
- The print-only members are not modelled: `print_itemsets`, `print_stats`, `print_frequent_itemsets`, `format_output` and `get_count` of LCM. `num_transactions` of dECLAT is modelled inline as `|db|` inside `CeilRatio`. The AprioriClose `Itemset` accessors `set_transaction_count` and `size` are modelled inline: the support of a `Pattern`, and the `|p.items| > 0` test of `Kept`. Its `get` and `add_item` are never called and are not modelled.
- Floating-point thresholds are exact ratios `num / den`. A count compared with `ratio * n`, or with `count / n >= ratio`, is the same test as comparing it with `CeilRatio` (`Mining.MeetsRatio`). The LCM threshold `0.4 * len(transactions)` is passed as that rounded-up count.
- Transactions are sets. Items repeated inside one input line are not modelled: the source counts them once in some miners and several times in others.
- Python dictionaries iterate in insertion order. Where the order only decides the order of the output, the model picks an order: the `map` of a method, or the smallest item first. Only the set of reported itemsets and their supports is specified.
- ECLAT: `items` is a list of entries in insertion order, and `popitem` takes the last one.
- PrePost: the root is node 0 of an arena, and its item is never read. `None` is not modelled.
- Declat.FrequentItemsets.AddItemset: the `IndexError` for an itemset of length ten or more becomes `ok == false`, and the search stops there.
- PrePost.PrePostTree.RunAlgorithm: stated for a newly constructed tree, which is how the driver calls it.
- AprioriClose.AprioriCloseAlgo.RunAlgorithm: stated for a newly constructed object. Items must lie in 0..999: the source's counter array has 1000 slots, raises for larger items, and wraps negative indices.
- AprioriClose: `candidates_count` and `max_level` are modelled. `end_time`, `peak_memory` and the `MemoryLogger` are left out.
- LCM.AlgoLCM.RunAlgorithm: stated for a newly constructed object. The `ValueError` of `max` on a database without items is the result `false`, with nothing recorded.
- LCM.IsClosed: requires a non-empty itemset. It is only called on non-empty itemsets.
- LCM.MakeItemset: sorts the set of the items, so a repeated item would be dropped. It is only called on ascending lists, which it keeps unchanged.
- LCM: the `deque` is a sequence used as a stack. Its memory logger and timing are not modelled.
- LCM: the item loop runs over `range(num_items())` of the whole database, as in the source, so an itemset holding a negative item is never reached. The contracts say the same: the results range over non-negative items only.
