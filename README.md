# similarity: a verified model of the search core

The `similarity` package (Go) answers the question "which dictionary entries
resemble this input?". Its `Exec` function works in three steps:

1. It files every dictionary entry in a radix-tree prefix map (`PrefixMap`),
   once under each lower-cased, space-separated word of the entry.
2. It gathers every entry stored in the subtree of the node the lower-cased
   input leads to (`GetByPrefix`).
3. It keeps the entries whose similarity to the input reaches a threshold.

The similarity is `1 - LevenshteinDistance / max(len(value), len(input))`.

The prefix map's traversals use a paged LIFO stack (`Stack`). The stack keeps
its elements in fixed-size pages and tracks a current page, an offset inside
it, a size and a capacity.

This project models all of these in Dafny, one module per concern:

| module | file | models |
|---|---|---|
| `Wrappers` | `wrappers.dfy` | Go's `nil` results as `Option` |
| `PagedStack` | `paged_stack.dfy` | `Stack` as a class over arrays, with its bookkeeping as a value (`Cursor`) |
| `StackFindings` | `stack_findings.dfy` | concrete runs that exhibit the two stack defects below |
| `Levenshtein` | `levenshtein.dfy` | `minimum`, `LevenshteinDistance` (the two-row method) against the edit-distance recurrence, and `ComputeSimilarity` |
| `RadixTree` | `radix_tree.dfy` | the tree as a value, with `lcpIndex`, `split`, `copyNode`, `newNodeWithKey` and `appendNode` |
| `RadixWalk` | `radix_walk.dfy` | `nodeForKey` as a function (`Walk`), a reference lookup, and `Get` / `Contains` / `ContainsPrefix` |
| `RadixInsert` | `radix_insert.dfy` | `Insert` / `Replace` as a function, and nodeForKey-with-create being that function |
| `RadixKeep`, `RadixStored`, `RadixValid` | `radix_keep.dfy`, `radix_stored.dfy`, `radix_valid.dfy` | what `Insert` keeps: other keys, every stored value, the tree's shape |
| `RadixCollect` | `radix_collect.dfy` | the stack-driven depth-first order of `GetByPrefix` |
| `RadixPrefixes`, `RadixTrace`, `RadixCover` | `radix_prefixes.dfy`, `radix_trace.dfy`, `radix_cover.dfy` | what `EachPrefix` hands its callback, and which nodes it visits |
| `RadixReach` | `radix_reach.dfy` | what `GetByPrefix` gathers for a prefix of a stored key |
| `Radix` | `prefix_map.dfy` | the `PrefixMap` object: its methods, with the source's loops, proved against the functions above |
| `Search` | `search.dfy` | `Exec` and its two loops |

Conventions of the model:

- A tree node is named by its path: the child indices from the root. The parent
  of the node at `p` is the node at `p` without its last index, which is what
  the source's `Parent` fields record.
- The `PrefixMap` object holds the tree as a value in its field `root`, and its
  methods reassign that field.
- The stack is a class with real pages (`array<Option<T>>`). Its methods are
  proved against functions on `Cursor`, the bookkeeping fields as a value.

## Model

| member | source | states |
|---|---|---|
| Levenshtein.ComputeMinimum | search/similarity.go:95-103 | the loop of `minimum` returns the left-to-right minimum of `value0` and `values` |
| Levenshtein.MinimumBounds | search/similarity.go:95-103 | the minimum is no larger than any argument and equal to one of them |
| Levenshtein.MinimumSwap | search/similarity.go:81-83 | the three-way minimum does not depend on the order of its first two arguments |
| Levenshtein.Distance | search/similarity.go:60-93 | the result is non-negative and bounded by one of the two lengths |
| Levenshtein.EditDistanceBounds | search/similarity.go:60-93 | the edit distance lies between the length difference and the longer length |
| Levenshtein.EditDistanceUnfold | search/similarity.go:76-84 | one cell of the table is the minimum of deletion, insertion and substitution |
| Levenshtein.EditDistanceDiagonal | search/similarity.go:60-93 | a string is at distance 0 from itself |
| Levenshtein.EditDistanceSymmetric | search/similarity.go:60-93 | swapping the two strings does not change the edit distance |
| Levenshtein.EditDistanceStep | search/similarity.go:76-84 | an inner cell is at most each of its three neighbours' candidates and equal to one of them |
| Levenshtein.EditDistanceNeighbours | search/similarity.go:76-84 | moving one row or one column changes the edit distance by at most 1 |
| Levenshtein.EditDistanceTriangle | search/similarity.go:60-93 | the edit distance of any two prefixes obeys the triangle inequality through a prefix of a third string |
| Levenshtein.TriangleThroughMiddle | search/similarity.go:76-84 | the triangle case where both sides end with a substitution or match of the middle string's last rune |
| Levenshtein.DistanceTriangle | search/similarity.go:60-93 | with a non-empty middle string, LevenshteinDistance(x, z) <= LevenshteinDistance(x, y) + LevenshteinDistance(y, z) |
| Levenshtein.DistanceTriangleEmptyMiddle | search/similarity.go:60-93 | through the empty string the triangle fails: LevenshteinDistance("x", "abc") is 3, but LevenshteinDistance("x", "") + LevenshteinDistance("", "abc") is 1 |
| Levenshtein.DistanceToSelfAndEmpty | search/similarity.go:60-93 | LevenshteinDistance(s, s) is 0 and LevenshteinDistance(s, "") is the length of s |
| Levenshtein.DistanceSymmetric | search/similarity.go:60-93 | with both strings non-empty, LevenshteinDistance does not depend on their order |
| Levenshtein.DistanceEmptySourceAsymmetric | search/similarity.go:60-93 | an empty source gives 0: LevenshteinDistance("", "ab") is 0 but LevenshteinDistance("ab", "") is 2 |
| Levenshtein.ComputeSimilarity | search/similarity.go:53-57 | the similarity is in [0, 1] when the distance is at most the longer length, and it is 1 exactly when the distance is 0 |
| Levenshtein.SimilarityAntitone | search/similarity.go:53-57 | a larger distance never gives a higher similarity |
| Levenshtein.SimilarityOfDistance | search/similarity.go:40-41 | the score Exec computes lies in [0, 1] and is 1 for equal strings |
| Levenshtein.LevenshteinDistance | search/similarity.go:60-93 | the two-row method returns the edit distance of the recurrence (0 for an empty source) |
| Levenshtein.FirstRow | search/similarity.go:67-70 | the first row holds 0, 1, 2, … |
| Levenshtein.NextRow | search/similarity.go:73-85 | from row i of the distance table the inner loop computes row i+1 |
| Levenshtein.CopyRow | search/similarity.go:87-89 | the copy loop makes vec1 equal to vec2 |
| PagedStack.SlotOrder | search/similarity.go:522-530 | a slot of an earlier page comes before every slot of a later page |
| PagedStack.AllocPages | search/similarity.go:583-588 | the allocation loop adds `count` pages and `count * pageSize` slots of capacity |
| PagedStack.PagesFor | search/similarity.go:577-581 | the number of new pages is `n / pageSize` rounded up |
| PagedStack.TopSlot | search/similarity.go:638-651 | the slot Top should read is always the slot of the top element, `size - 1` |
| PagedStack.CopyPositioned | search/similarity.go:594-611 | the copy loop advances the position by exactly the number of elements copied, and keeps the offset within a page |
| PagedStack.CopyFits | search/similarity.go:594-611 | the copy loop stays within the page list when the pages have room for the elements |
| PagedStack.PushPositioned | search/similarity.go:569-612 | Push, as written, keeps `size == currentPageIndex * pageSize + offset` whenever it succeeds |
| PagedStack.SizeWithinCapacity | search/similarity.go:522-530 | a stack whose capacity counts its pages holds no more than its capacity |
| PagedStack.AllocateRoom | search/similarity.go:576-590 | after allocation, the capacity has room for the pushed elements and still counts the pages |
| PagedStack.PushSafe | search/similarity.go:569-612 | with an accurate capacity, Push never indexes past the page list, and it keeps both invariants |
| PagedStack.PopSafe | search/similarity.go:616-635 | the corrected Pop removes exactly one element and keeps both invariants |
| PagedStack.PopAsWrittenPositioned | search/similarity.go:616-635 | Pop as written keeps the position invariant; its defect is confined to `capacity` |
| PagedStack.ReplayFixedNeverFails | search/similarity.go:569-635 | with the corrected Pop, no sequence of pushes and pops makes Push leave the page list |
| PagedStack.AllocateOne | search/similarity.go:576-590 | allocation for one element keeps the slack bound and leaves a next page when the current one is full |
| PagedStack.CopyOne | search/similarity.go:594-611 | copying one element fills the next slot, moving to the next page when the current one is full, and keeps both bounds |
| PagedStack.PushOneSlack | search/similarity.go:569-612 | Push of one element never indexes past the page list and keeps the position and slack bounds |
| PagedStack.PopAsWrittenSlack | search/similarity.go:616-635 | Pop as written keeps capacity within the kept pages and within two pages past the current one |
| PagedStack.ReplaySinglePushes | search/similarity.go:569-635 | under the slack bound, single-element pushes and Pops as written never make Push leave the page list |
| PagedStack.SinglePushesNeverFail | search/similarity.go:532-635 | from a new stack, single-element pushes (all GetByPrefix and EachPrefix do) and Pops as written never make Push leave the page list |
| PagedStack.ReplayConcat | search/similarity.go:569-635 | running `a + b` runs `a`, then `b` from where `a` stopped |
| PagedStack.Stack.WithCapacity | search/similarity.go:555-566 | NewStackWithCapacity: an empty stack with one page of `cap` slots |
| PagedStack.Stack.constructor | search/similarity.go:532-550 | NewStack: an empty stack with one page of 4096 slots |
| PagedStack.Stack.Size | search/similarity.go:654-656 | Size is the number of elements held |
| PagedStack.Stack.Push | search/similarity.go:569-612 | the elements are appended in order, the last on top; the bookkeeping moves as the Push function says |
| PagedStack.Stack.Reserve | search/similarity.go:576-594 | allocation makes room for the elements and counts them in `size` |
| PagedStack.Stack.AddPages | search/similarity.go:583-588 | the allocation loop appends `count` empty pages |
| PagedStack.Stack.AddPage | search/similarity.go:584-587 | one new empty page at the end, and capacity grows by one page |
| PagedStack.Stack.CopyIn | search/similarity.go:595-611 | the copy loop stores every element in its slot and moves as the Copy function says |
| PagedStack.Stack.CopyChunk | search/similarity.go:596-610 | one round copies as much as fits into the current page and then moves to the next page |
| PagedStack.Stack.WritePage | search/similarity.go:601 | `copy` puts the chunk into the current page from `offset` on |
| PagedStack.Stack.Pop | search/similarity.go:616-635 | Pop returns and removes the top element, and returns None on an empty stack |
| PagedStack.Stack.LeavePage | search/similarity.go:624-632 | on a page boundary the top element is the last slot of the previous page |
| PagedStack.Stack.Top | search/similarity.go:638-651 | Top returns the top element without removing it, and None on an empty stack |
| StackFindings.CapacityDriftCounterexample | search/similarity.go:624-630 | with page size 2, after twelve operations `capacity` says 8 slots but only 6 exist, and the next Push of 5 indexes past the page list |
| StackFindings.TopSlotCounterexample | search/similarity.go:643-647 | after Push(a), Push(b, c) and Pop with page size 2, Top reads slot 3, which was never written, instead of slot 1, where `b` is |
| RadixTree.NewRoot | search/similarity.go:136-141 | New: the root has the empty key, no values and no children |
| RadixTree.FirstMismatch | search/similarity.go:511-518 | the scan stops within the shorter string |
| RadixTree.FirstMismatchCommon | search/similarity.go:511-518 | the scan stops at the end of the longest common prefix |
| RadixTree.LcpIndex | search/similarity.go:487-519 | lcpIndex is -1 or an index inside both strings |
| RadixTree.LcpIndexCommon | search/similarity.go:487-519 | lcpIndex is the index of the last byte of a common prefix that cannot be extended |
| RadixTree.LcpIndexUnique | search/similarity.go:487-519 | every maximal common prefix has length lcpIndex + 1 |
| RadixTree.LcpIndexSymmetric | search/similarity.go:487-519 | lcpIndex does not depend on the order of its arguments |
| RadixTree.LcpIndexNone | search/similarity.go:487-519 | lcpIndex is -1 exactly when a string is empty or the first bytes differ |
| RadixTree.LcpIndexPrefix | search/similarity.go:487-519 | lcpIndex reaches the end of `b` exactly when `b` is a prefix of `a` |
| RadixTree.LcpIndexSelf | search/similarity.go:487-519 | a string agrees with itself on its whole length |
| RadixTree.ReplaceAt | search/similarity.go:107-121 | after replacing the node at a path, that path names the new node |
| RadixTree.ChildPath | search/similarity.go:386-395 | a child's full key is its parent's full key followed by the child's fragment |
| RadixTree.ParentPath | search/similarity.go:145-154 | the parent of a node is a node, and the node's full key extends its parent's |
| RadixTree.Split | search/similarity.go:273-296 | split: the node keeps the first `cut` bytes and no values; one new child (the copy) takes the rest of the key, the values and the children |
| RadixTree.AppendChild | search/similarity.go:298-309 | newNodeWithKey and appendNode: a new leaf with no values becomes the last child, and nothing else changes |
| RadixWalk.WalkIn | search/similarity.go:162-271 | the nodeForKey loop only ever names nodes of the tree, and it reports a divergence only when creating |
| RadixWalk.Walk | search/similarity.go:162-271 | nodeForKey from the root only names nodes of the tree |
| RadixWalk.Created | search/similarity.go:162-271 | nodeForKey with create returns a node of the tree it leaves |
| RadixWalk.ContainsIffGet | search/similarity.go:332-348 | Contains(k) holds exactly when Get(k) returns values, and then ContainsPrefix(k) holds too |
| RadixWalk.WalkFindsLookup | search/similarity.go:162-271 | every key in the map is found exactly, at a node holding its values |
| RadixWalk.GetFindsLookup | search/similarity.go:340-348 | Get returns the values of every key in the map; a key Get misses is not in the map |
| RadixWalk.GetFallThrough | search/similarity.go:201-230 | Get("strong") on a map holding "stringmap" and "ong" returns the values of "ong" |
| RadixInsert.InsertIn | search/similarity.go:314-327 | insertion keeps the node's key, its values and the children before the scan point, and never removes children |
| RadixInsert.CreatedIsInsert | search/similarity.go:162-327 | nodeForKey with create, followed by the value update of Insert or Replace, is the insertion function |
| RadixInsert.InsertFindsKey | search/similarity.go:314-327 | after Insert or Replace the key is found with the old values followed by the new ones (Insert), or with the new ones only (Replace) |
| RadixKeep.InsertKeepsOthers | search/similarity.go:314-327 | Insert or Replace of one key leaves the lookup of every other key unchanged, except that a proper prefix of the key where a node is split may go from absent to present with no values |
| RadixKeep.InsertThenGet | search/similarity.go:314-348 | Get after Insert or Replace of a non-empty key returns the updated values; other stored keys keep theirs |
| RadixKeep.InsertEmptyKey | search/similarity.go:162-327 | Insert("") appends a root child with the empty key, which Get("") never reaches |
| RadixKeep.StringmapOngInserted | search/similarity.go:314-318 | inserting "stringmap" and then "ong" builds the fall-through example map |
| RadixKeep.LcpIndexShift | search/similarity.go:487-519 | dropping a common prefix of length l lowers lcpIndex by l |
| RadixKeep.ProbeSplit | search/similarity.go:273-290 | splitting a node changes the lookup of no key through it except the split point |
| RadixStored.InsertStored | search/similarity.go:314-318 | Insert adds its values once each and keeps every value already stored |
| RadixStored.StoredAt | search/similarity.go:352-372 | a subtree stores part of what the whole tree stores |
| RadixValid.SplitValid | search/similarity.go:273-290 | a split node's only child satisfies the tree's shape invariant |
| RadixValid.InsertValidIn | search/similarity.go:162-327 | insertion below a node keeps its children well formed |
| RadixValid.InsertKeepsValid | search/similarity.go:314-327 | Insert and Replace keep the tree's shape: non-empty fragments, siblings with distinct first bytes |
| RadixCollect.Preorder | search/similarity.go:352-372 | the traversal from `p` starts at `p` and visits only nodes below `p` |
| RadixCollect.PreorderStored | search/similarity.go:352-372 | the values along the traversal of a subtree are, as a multiset, what it stores |
| RadixCollect.ValuesConcat | search/similarity.go:352-372 | gathering over two runs of nodes gathers over the first, then the second |
| RadixCollect.PendingPop | search/similarity.go:363-369 | popping a node and pushing its children keeps the order of the nodes still to visit |
| RadixPrefixes.Info | search/similarity.go:407-415 | a callback argument names its node and carries that node's values |
| RadixPrefixes.ThenAssoc | search/similarity.go:426-476 | running callbacks in sequence is associative and has a unit |
| RadixPrefixes.VisitPop | search/similarity.go:437-475 | one round of EachPrefix (pop, callback, push children) keeps the callbacks still to come |
| RadixPrefixes.Lengths | search/similarity.go:426-476 | the second stack holds one fragment length per level |
| RadixPrefixes.LengthsSum | search/similarity.go:426-476 | the fragment lengths add up to the length of the full key |
| RadixPrefixes.LengthsPrefix | search/similarity.go:444-451 | the lengths and key of an ancestor are the first ones of a node's |
| RadixTrace.TraceSound | search/similarity.go:426-476 | EachPrefix hands the callback only nodes other than the root, each with its full key and values, and stops right after a halt |
| RadixTrace.TraceAll | search/similarity.go:426-476 | a callback that never skips or halts sees every node but the root, in depth-first order, last child first |
| RadixTrace.TraceCut | search/similarity.go:437-475 | a callback that never skips sees a prefix of that order, and all of it unless it halts |
| RadixTrace.TraceHaltAtOnce | search/similarity.go:464-467 | a callback that halts at once sees only the root's last child |
| RadixTrace.TraceSkipAll | search/similarity.go:468-474 | a callback that skips every branch sees only the root's children, last first |
| RadixCover.PrefixValid | search/similarity.go:145-154 | every prefix of a path to a node is a path to a node, and the next index names one of its children |
| RadixCover.ChildPrefix | search/similarity.go:386-395 | a path lies below child `j` of `p` exactly when it lies strictly below `p` with `j` as its next index |
| RadixCover.PreorderHas | search/similarity.go:352-372 | the traversal from `p` lists exactly the nodes below or at `p` |
| RadixCover.PreorderKidsHas | search/similarity.go:352-372 | the traversal of the first `k` children of `p` lists exactly the nodes below those children |
| RadixCover.DistinctConcat | search/similarity.go:352-372 | two duplicate-free runs with no node in common join into a duplicate-free run |
| RadixCover.PreorderDistinct | search/similarity.go:352-372 | the traversal from `p` lists no node twice |
| RadixCover.PreorderKidsDistinct | search/similarity.go:352-372 | the traversal of the first `k` children of `p` lists no node twice |
| RadixCover.RootKidsCover | search/similarity.go:426-476 | the order EachPrefix follows lists every node but the root, exactly once |
| RadixCover.TraceCovers | search/similarity.go:426-476 | a callback that never skips or halts is handed every node but the root, exactly once, with its own key and values |
| RadixCover.Pruned | search/similarity.go:468-474 | the order below `q` with the subtree of `p` cut off after `p` itself, made only of nodes |
| RadixCover.PrunedKids | search/similarity.go:468-474 | the same for the first `k` children of `q` |
| RadixCover.VisitNodePruned | search/similarity.go:437-475 | a callback that skips only at `p` is handed the pruned order from `q` |
| RadixCover.VisitKidsPruned | search/similarity.go:437-475 | the same for the first `k` children of `q` |
| RadixCover.PrunedHas | search/similarity.go:468-474 | the pruned order from `q` lists exactly the nodes at or below `q` that are not strictly below `p` |
| RadixCover.PrunedKidsHas | search/similarity.go:468-474 | the pruned order of the first `k` children of `q` lists exactly the nodes below them that are not strictly below `p` |
| RadixCover.TraceSkipOne | search/similarity.go:468-474 | a callback that skips the branch at one node `p` only is handed every node but the root except those strictly below `p` |
| RadixReach.LookupStored | search/similarity.go:162-271 | the values of a key found among the children of a node are stored below that node |
| RadixReach.WalkPrefixStored | search/similarity.go:162-271 | nodeForKey of a non-empty prefix of a stored key ends, exactly or inside a fragment, at a node whose subtree stores that key's values |
| RadixReach.PrefixStops | search/similarity.go:197-211 | a prefix that ends within a child's fragment stops at that child, which stores the key's values |
| RadixReach.PrefixDescends | search/similarity.go:213-223 | a prefix longer than a matching fragment descends into that child, where the key continues |
| RadixReach.PrefixGathers | search/similarity.go:352-372 | GetByPrefix of a non-empty prefix of a stored key finds a node and returns every value of that key |
| RadixReach.EmptyPrefixFindsNothing | search/similarity.go:171-270 | the empty prefix finds no node, so GetByPrefix("") returns nothing |
| RadixReach.DeadEndDescent | search/similarity.go:213-270 | with "string" and "stringmap" in the map, nodeForKey("stringx") stops at "string", so GetByPrefix("stringx") returns the values of both keys while Get("stringx") finds nothing |
| Radix.Seek | search/similarity.go:162-271 | the nodeForKey loop ends where the Walk function says |
| Radix.WalkDescend | search/similarity.go:213-223 | a fragment that is a proper prefix of the key is descended into |
| Radix.WalkFallsThrough | search/similarity.go:201-230 | without create, a partly matched key is compared again with the same node, with what is left of it |
| Radix.Gather | search/similarity.go:359-371 | the GetByPrefix loop gathers the values of the subtree in depth-first order, each stored value once |
| Radix.GatherRound | search/similarity.go:363-369 | one round of the loop keeps the values still to gather, and the work left shrinks |
| Radix.PushOne | search/similarity.go:569-612 | pushing one element appends it |
| Radix.PopOne | search/similarity.go:616-635 | popping a non-empty stack removes its last element and returns it |
| Radix.PushChildren | search/similarity.go:366-368 | the children of a node are pushed first to last |
| Radix.OrderedPop | search/similarity.go:437-475 | the stack of EachPrefix stays ordered by depth after each pop and push |
| Radix.Rewound | search/similarity.go:444-451 | the trimmed lengths and prefix are those of the parent of the next node |
| Radix.Extended | search/similarity.go:452-454 | adding a node's fragment to its parent's lengths and key gives the node's own |
| Radix.Rewind | search/similarity.go:445-451 | the trimming loop drops `count` lengths and cuts as many bytes off the prefix as they add up to |
| Radix.Halted | search/similarity.go:464-467 | a halt completes the trace |
| Radix.Skipped | search/similarity.go:468-470 | a skipped branch has no children pushed |
| Radix.Descended | search/similarity.go:472-474 | otherwise the popped node's children take its place on the stack |
| Radix.Depth | search/similarity.go:145-154 | Depth is the number of parent links up to the root: the length of the path |
| Radix.PrefixDepth | search/similarity.go:419-421 | the depth of a callback argument is the depth of its node |
| Radix.Enter | search/similarity.go:444-454 | on reaching a node, the prefix is its full key and the second stack holds its fragment lengths |
| Radix.Visit | search/similarity.go:438-474 | one round for a node other than the root keeps the traversal on course, or ends it with the full trace on a halt |
| Radix.RootStep | search/similarity.go:439-474 | popping the root pushes its children and makes no callback |
| Radix.Step | search/similarity.go:437-475 | one round of EachPrefix's loop keeps the traversal on course and shrinks the work left |
| Radix.PrefixMap.constructor | search/similarity.go:136-141 | New is an empty map |
| Radix.PrefixMap.Key | search/similarity.go:386-395 | Key is the concatenation of the fragments from the root down to the node |
| Radix.PrefixMap.SplitNode | search/similarity.go:273-296 | split replaces the node by its split form and changes nothing else |
| Radix.PrefixMap.AppendNode | search/similarity.go:298-309 | a new leaf becomes the node's last child, and its path is returned |
| Radix.PrefixMap.NodeForKey | search/similarity.go:162-271 | with create, a node for the key exists afterwards and is returned; without, nothing changes and the node the walk ended at is returned |
| Radix.PrefixMap.Insert | search/similarity.go:314-318 | the map becomes the insertion of the values after those stored under the key |
| Radix.PrefixMap.Replace | search/similarity.go:323-327 | the map becomes the insertion with the values replacing those stored under the key |
| Radix.PrefixMap.Get | search/similarity.go:340-348 | Get returns the values of an exact match, and the stored values of every key in the map |
| Radix.PrefixMap.Contains | search/similarity.go:332-336 | Contains holds exactly when Get returns values, and for every key in the map |
| Radix.PrefixMap.ContainsPrefix | search/similarity.go:375-379 | ContainsPrefix holds when a node is found, which includes every key Contains accepts |
| Radix.PrefixMap.GetByPrefix | search/similarity.go:352-372 | GetByPrefix returns nothing when no node is found; otherwise the values of the node's subtree in depth-first order, each stored value once |
| Radix.PrefixMap.EachPrefix | search/similarity.go:426-476 | the callbacks made, in order, are the trace whose properties RadixTrace proves |
| Search.Lower | search/similarity.go:29 | ToLower maps every rune and keeps the length |
| Search.Split | search/similarity.go:29 | strings.Split always gives at least one piece |
| Search.SplitPieces | search/similarity.go:29 | Split gives one piece more than there are spaces, and no piece holds a space |
| Search.SplitJoin | search/similarity.go:29 | joining the pieces with spaces gives back the string |
| Search.JoinSplit | search/similarity.go:29 | splitting pieces without spaces, after joining them with spaces, gives back the pieces |
| Search.SplitWord | search/similarity.go:29 | a word without spaces splits into itself |
| Search.Score | search/similarity.go:40-41 | there is no score when both strings are empty; otherwise it is in [0, 1], and it is 1 exactly when the distance is 0 |
| Search.MatchesExactly | search/similarity.go:38-46 | a match is collected exactly for a candidate whose score reaches the threshold, with that score |
| Search.MatchesConcat | search/similarity.go:38-46 | the matches keep the order of the candidates |
| Search.Exec | search/similarity.go:24-50 | Exec returns the matches of the candidates GetByPrefix gathers for the lower-cased input |
| Search.Build | search/similarity.go:25-33 | the first loop files every entry under each of its words, entry by entry |
| Search.FileEntry | search/similarity.go:30-32 | the inner loop inserts the entry under each of its parts in turn |
| Search.Collect | search/similarity.go:37-46 | the second loop collects the matches, in the order of the values |
| Search.FileUnderStored | search/similarity.go:30-32 | filing an entry stores it once per word and changes no other value |
| Search.PopulateStored | search/similarity.go:28-33 | the map holds nothing but dictionary entries |
| Search.CandidatesFromDictionary | search/similarity.go:24-50 | Exec only ever returns dictionary entries |
| Search.InsertHolds | search/similarity.go:314-318 | Insert keeps every value of every non-empty key |
| Search.FileUnderHolds | search/similarity.go:30-32 | filing more entries keeps every value of every non-empty key |
| Search.FileUnderFiles | search/similarity.go:30-32 | after filing, the entry is stored under each of its non-empty words |
| Search.PopulateFiles | search/similarity.go:28-33 | every dictionary entry is stored under each of its non-empty words |
| Search.HoldsGathered | search/similarity.go:352-372 | GetByPrefix of a key in the map returns at least that key's values |
| Search.ExecFindsWord | search/similarity.go:24-50 | an entry with the lower-cased, non-empty input as one of its words is among the candidates |
| Search.ExecFindsPrefix | search/similarity.go:24-50 | an entry one of whose words starts with the lower-cased, non-empty input is among the candidates |
| Search.ExecEmpty | search/similarity.go:24-50 | Exec returns nothing for an empty input, and nothing for an empty dictionary |
| Search.ExecFindsExactWord | search/similarity.go:24-50 | an entry that is a single word equal to the input up to case is returned with similarity 1, for any threshold up to 1 |

## Left out

- Printing is left out: `Match.Print`, and the `Printf` lines in `Exec`.
- `float64` is modelled as exact `real` arithmetic, with no rounding.
- ComputeSimilarity: its precondition excludes `max(w1Len, w2Len) == 0`, where the source divides 0 by 0 and gets NaN. Exec never calls it with an empty input, because the empty input gathers no candidates (`Search.ExecEmpty`). `Search.Score` models it as "no score", because no threshold comparison accepts a NaN.
- Strings are `seq<char>`, and `len` is taken as the number of runes. The source's `len(value)`, `len(input)` and `len(destination)` count bytes, so the model agrees with it only on text whose runes are one byte each.
- `strings.ToLower` is a parameter `toLower`, applied rune by rune. Unicode case mapping is not part of this model.
- The package variables `datasource` and `similarity` are locals of `Exec`.
- The prefix map's `interface{}` values are a type parameter `V`. The `.(string)` type assertions in Exec and the traversals always succeed in the model.
- Nodes are values named by paths, not objects linked by `Children` and `Parent` fields. Aliasing of nodes through those fields is not modelled.
- `copyNode` is not a member of its own. It is the new child that `RadixTree.Split` and `Radix.PrefixMap.SplitNode` produce.
- Radix.PrefixMap.Get, Contains, ContainsPrefix, GetByPrefix: kept as the source behaves, which goes beyond "keys in the map". Without create, nodeForKey compares the rest of a partly matched key with the same node again, so Get can return the values of a key that was never inserted (`RadixWalk.GetFallThrough`). The contracts state exact agreement for every key in the map, and the source's own result for every other key. A partly matched key can also end at the node it descended into, with no child continuing it, and GetByPrefix then returns values of keys that do not start with it (`RadixReach.DeadEndDescent`). GetByPrefix of a non-empty prefix of a stored key returns at least that key's values (`RadixReach.PrefixGathers`); the empty prefix finds no node and returns nothing (`RadixReach.EmptyPrefixFindsNothing`).
- Levenshtein.LevenshteinDistance: kept as written for an empty source, which returns 0 whatever the destination (`Levenshtein.DistanceEmptySourceAsymmetric`). Exec never calls it with an empty source, but an empty source is a public input of the function.
- Radix.PrefixMap.Get, Radix.PrefixMap.Contains, RadixWalk.ContainsIffGet: Go's nil slice and empty slice are one value, the empty sequence. Insert("a") with no values leaves the node's data nil, so the source's Get("a") returns nil while Contains("a") holds; the model's Get returns an empty sequence there. Replace with no values stores a nil slice in the same way, while a node created by a split holds a non-nil empty slice.
- Levenshtein.Distance: the triangle inequality is stated only through a non-empty middle string, because the source's result for an empty source breaks it (`Levenshtein.DistanceTriangleEmptyMiddle`).
- PagedStack.Stack.Pop: the class uses the corrected Pop, which recomputes `capacity` from the kept pages; the source lowers it by one page (similarity.go:628). The as-written bookkeeping is `PagedStack.PopCursorAsWritten`. With single-element pushes, which are all GetByPrefix and EachPrefix do, it never makes Push leave the page list (`PagedStack.SinglePushesNeverFail`); the defect needs a Push of several elements (`StackFindings.CapacityDriftCounterexample`).
- PagedStack.Stack.LeavePage: carries the same correction as `PagedStack.Stack.Pop`: on a page boundary `capacity` becomes the slots of the kept pages instead of one page less (similarity.go:628).
- The callback of EachPrefix is a pure function from a `Prefix` to its two flags. Side effects of the callback are not modelled.
- `Stack.Push` with a `nil` argument is the same as an empty sequence of elements.
- PagedStack.Stack.WithCapacity: requires a capacity above 0. The source accepts 0, but then its Push divides by zero.

## Findings

| source | as written | input that shows it | evidently intended | confidence | as-written member | corrected member |
|---|---|---|---|---|---|---|
| search/similarity.go:624-630 | on a page boundary Pop cuts the page list to `currentPageIndex+1` pages but lowers `capacity` by one page, whatever number of pages the cut removed | page size 2: Push(x); Push(x, x); Pop ×2; Push(x, x, x); Pop ×3; Push(x ×5); Pop ×3; then Push(x ×5). `capacity` is 8 with 6 slots, so no page is allocated and the copy loop indexes `pages[3]`, past the end | `capacity` equals the slots of the pages kept | not executed | StackFindings.CapacityDriftCounterexample | PagedStack.ReplayFixedNeverFails, PagedStack.Stack.Pop |
| search/similarity.go:643-647 | with `offset == 0` Top reads the last slot of the last page in the list instead of the last slot of page `currentPageIndex-1` | page size 2: Push(a); Push(b, c); Pop; Top reads slot 3, which was never written (nil), instead of slot 1, which holds `b` | Top reads the last slot of the page below the current one, where the top element is | not executed | StackFindings.TopSlotCounterexample | PagedStack.Stack.Top |
