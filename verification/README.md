# Skiparray: a verified model

A skiparray is an ordered map kept as an unrolled skip list: a doubly linked chain of nodes,
each holding a sorted run of pairs in a window of a fixed buffer, with express links over the
taller nodes. Nodes split, merge and shift pairs as keys come and go, and the links of every
level are rewired by comparing keys. On top of it are iterators that lock it, a bulk builder,
a fold that merges any number of skiparrays, and a filter that joins the fold to the builder.

The model keeps this form. `Node`, `Skiparray`, `Iter`, `Builder` and `Fold` are classes whose
methods update in place the fields the C structs have, with loops where the C code has loops.
Beside its links a skiparray has three ghost fields: `chain`, its nodes in level-0 order,
`wins`, the pairs each holds, and `iters`, its live iterators. `Lay()` is its layout: `wins` and
the nodes' heights, from which all links follow. `Skiparray.Valid` says, in all:

- the nodes hold exactly these windows, in buffers that no two of them share;
- on every level the chain of links is the level-0 chain restricted to the nodes tall enough,
  `nodes[l]` is where it starts, `back` inverts level 0, and `height` is the tallest node's;
- no node holds more than `nodeSize` pairs, none but the last fewer than `nodeSize / 2`, and the
  last is not empty unless it is the only one; an empty window leaves room at its offset;
- all pairs in a row, `Contents()`, strictly ascend.

Every operation keeps `Valid` and is proved against the plain sorted map of `Pairs.dfy`, which in
turn is proved to be a Dafny map from key ranks to pairs (`Lists`). A key is a rank, which is all
that `cmp` sees, and an identity, so that replacing a key by an equal one can be told from keeping
it. What an operation does to the layout is also settled: which node takes a new pair, when and
how nodes split and merge, how tall a new node is. So is then every later refusal for want of
memory. The level callback's answers and the outcomes of allocations are parameters, so the results
hold for all node heights and all failures.

| file | holds |
|---|---|
| `Pairs.dfy` | keys, values, the sorted map, and the Dafny map it lists |
| `Windows.dfy` | the sorted map cut into windows: positions, splitting, merging, shifting |
| `Layouts.dfy` | windows and node heights, what each operation does to them, and what that amounts to |
| `Nodes.dfy` | one node: a window sliding in its buffers |
| `Chains.dfy` | which node comes next on a level, and how links change around a node |
| `Skiparrays.dfy` | search, set, forget, pops, reading, iterators |
| `Builders.dfy` | the builder |
| `Queues.dfy`, `Folds.dfy` | the fold's queue, and the fold itself |
| `Merges.dfy` | what a run of the fold amounts to: conservation, order, equal keys |
| `Turns.dfy` | that the inputs settle a run, and the order of the merge callback's arguments |
| `Descents.dfy` | runs to the right |
| `WholeFolds.dfy` | left, right and single folds over actual skiparrays |
| `Filters.dfy` | filter |
| `Runs.dfy` | whole runs of operations against the map |
| `Histories.dfy` | what follows of runs: that they are settled, when memory is needed, how tall nodes are, what iterators read |

`dafny verify dfyconfig.toml` checks the project.

## Model

| member | source | states |
|---|---|---|
| `Runs.RunAll` | src/skiparray.c:115-814 | for every sequence of sets, forgets, pops, gets, firsts, lasts, counts and iterator operations, and all callback outcomes, each result is the sorted map's, the layout changes as the operation does it, the skiparray stays well-formed, the live iterators are exactly the client's, and the head node is never replaced; a set answers ERROR_MEMORY exactly where no iterator is open, its key is new, goes into a full node, and that node's split is not granted memory |
| `Runs.RunOnMap` | src/skiparray.c:115-814 | the same run, result by result, is a run of a Dafny map from ranks to pairs: what a set replaced, which pair was smallest or largest, how many there are; a failed or locked call leaves the map as it was, and a set fails for memory exactly where it needs a node and gets none |
| `Runs.RunNew` | src/skiparray.c:19-84 | any run on a new skiparray, of the node size, level limit and use of values asked for, starts from the empty map without iterators, in one empty node of the height that the level callback has for the root |
| `Histories.RunDetermined` | src/skiparray.c:115-814 | the operations and the callbacks' answers settle a run: all results, all pairs, all iterators' places and the layout of the nodes at every point |
| `Histories.FirstRefusal` | src/skiparray.c:203-217 | after sets alone on a new skiparray, no set of up to as many keys as a node holds fails for memory, and that of the first key too many does exactly when its allocation is refused |
| `Histories.SetGrows` | src/skiparray.c:203-321 | a set adds a pair exactly where it binds one, and a node exactly where that pair goes into a full one |
| `Histories.TallThroughout` | src/skiparray.c:1237-1245 | in every state of a run in which the level callback never wraps to zero, every node but the head is on at least two levels if there are two, and the head is as tall as it always was |
| `Histories.SeekThenRead` | src/skiparray.c:713-756 | in a run, seek finds a key exactly when the map has it and fails exactly where it is below all or above all keys; else a read after it gives the pair with the smallest key not below it |
| `Histories.EndThenRead` | src/skiparray.c:694-711 | in a run, a read after going to the first or the last pair gives the map's smallest or largest |
| `Histories.ReadOn` | src/skiparray.c:758-775 | in a run, next and read after a read give the map's next larger pair, and END exactly where the one read was the largest |
| `Histories.ReadBack` | src/skiparray.c:777-795 | in a run, prev and read after a read give the next smaller one, and END and the same pair again exactly where that was the smallest |
| `Runs.Pinned` | src/skiparray.c:154-172 | for as long as there are iterators, whichever come and go, the pairs do not change and every iterator stays on one of them or just past the last |
| `Runs.Sweep` | src/skiparray.c:758-814 | get and next from the first pair visit every pair exactly once, in order, and then answer END |
| `Runs.SweepBack` | src/skiparray.c:777-814 | get and prev from the last pair visit every pair exactly once, in reverse, and then answer END |
| `Skiparrays.Skiparray.FindNode` | src/skiparray.c:1070-1181 | the descent over the levels terminates, though it may move back, at the first node whose last key is not smaller, or at the last node; `found` is set, on whatever level, exactly when that last key is equal |
| `Skiparrays.Skiparray.DescendPast` | src/skiparray.c:1144-1158 | where a level ends, the search goes on from its predecessor's link on the first lower level that leads to a node it has not just left, or on the lowest; without a predecessor, from the next level's start |
| `Skiparrays.Skiparray.Search` | src/skiparray.c:1068-1185 | FOUND gives the pair's node and index; NOT_FOUND a slot whose flat position is where the key belongs, at the border of two nodes the end of the first exactly when that one is less full |
| `Nodes.Bsearch` | src/skiparray.c:1022-1058 | FOUND gives an index with an equal key, NOT_FOUND the index that separates smaller from larger keys |
| `Nodes.Node.SearchWithin` | src/skiparray.c:1060-1066 | the binary search over the window, in terms of the pairs it holds |
| `Nodes.Node.PrepareForInsert` | src/skiparray.c:1187-1235 | in each of the layout cases the buffers end up holding the old window with one free cell at the index |
| `Nodes.GapBackward` | src/skiparray.c:1206-1210 | the backward move may take one pair more than needed: the extra copy lies in the free cell and its original in place |
| `Nodes.StoreInGap` | src/skiparray.c:311-321 | storing in the free cell makes the window the old one with the pair inserted |
| `Nodes.Node.InsertAt` | src/skiparray.c:311-321 | keys and values alike, the window becomes the old one with the pair inserted at the index |
| `Nodes.Node.RemoveAt` | src/skiparray.c:369-388 | first, last or middle, the window becomes the old one without that pair, and an emptied one still has room at its offset |
| `Nodes.CloseGap` | src/skiparray.c:380-384 | moving the pairs behind a removed one down leaves the window without it |
| `Nodes.Node.ShiftPairs` | src/skiparray.c:1451-1462 | the overlapping move in both buffers reads all cells before it writes any |
| `Nodes.Node.MovePairs` | src/skiparray.c:1464-1475 | the copy from another node's buffers, keys and values alike |
| `Skiparrays.Skiparray.SplitFull` | src/skiparray.c:213-301 | splitting a full node leaves the contents, puts the new node right after it, which links lead to on exactly the levels below the limit up to one more than the level callback's answer, and keeps the whole invariant |
| `Skiparrays.Skiparray.SplitNode` | src/skiparray.c:1237-1276 | the new node gets the last half, rounded down, of the pairs, and the height that the level callback's answer makes for |
| `Chains.LedIff` | src/skiparray.c:221-301 | in a linked chain, a level's links lead to a node exactly when it is taller than that level |
| `Layouts.AddedHeightIff` | src/skiparray.c:1240-1245 | the levels a new node is on, by the level callback's answer, come to two more than the answer, up to the limit: two at least, never fewer for larger answers, and every number from two to the limit occurs |
| `Layouts.RootHeightIff` | src/skiparray.c:46-47 | the first node is on one level less than that |
| `Layouts.EnteredSplitSizes` | src/skiparray.c:303-321 | the new pair goes into the old half up to the slot just behind what that keeps, and into the new half beyond; both halves end at least half full and no other node changes |
| `Skiparrays.Skiparray.LinkAfter` | src/skiparray.c:221-301 | the back pointer and the three linking loops put the new node at its one place on every level below its height, be it shorter or taller than the split node or the whole list |
| `Skiparrays.Skiparray.WalkLevel` | src/skiparray.c:238-273 | walking a level by keys, from where the level above left off, ends at the new node's predecessor on it |
| `Skiparrays.Skiparray.LinkTaller` | src/skiparray.c:228-288 | the top-down loop links the new node on exactly the used levels above the split node's |
| `Skiparrays.Skiparray.GrowHeight` | src/skiparray.c:290-295 | levels not in use before start at the new node, and `height` becomes its height if that is larger |
| `Skiparrays.Skiparray.LinkCommon` | src/skiparray.c:297-301 | the common-height loop links it on the levels of the split node |
| `Chains.LevelInserted` | src/skiparray.c:221-301 | one level's links after a node enters behind its predecessor are those of the chain with the node in it |
| `Skiparrays.Skiparray.SetWithPair` | src/skiparray.c:165-330 | BOUND, REPLACED with the previous pair, ERROR_MEMORY or LOCKED as the sorted map and the outcome of the allocation have it; fails for memory exactly where the key would go into a full node; failed or locked, nothing at all changes, and else the layout changes by that pair and at most that split |
| `Windows.AnswerUnique` | src/skiparray.c:213-217 | which slot a new key goes to is determined, so whether an insertion splits does not depend on node heights |
| `Skiparrays.Skiparray.Forget` | src/skiparray.c:332-409 | the pair forgotten, NOT_FOUND or LOCKED, as the sorted map has it; the layout loses that pair, and a node that falls below half full is made up for |
| `Skiparrays.Skiparray.ShiftOrMerge` | src/skiparray.c:1283-1361 | makes up for a node that fell below half full, leaving the contents unchanged: the layout becomes exactly `MadeUp`, which merges with the next node if they fit, else takes from it, and, where there is no next, merges into the one before if they fit and else changes nothing |
| `Layouts.MadeUpAmounts` | src/skiparray.c:1283-1361 | exactly one node goes if the node's pairs fit into one with the next node's, or, for the last, with the one before's; else no node goes and pairs move only from the next node, which keeps exactly half a node |
| `Layouts.LastTooMuch` | src/skiparray.c:1302-1315 | where forgetting a pair of the last node leaves the last under half full, it and the one before hold more than one node does |
| `Layouts.LastAsItWas` | src/skiparray.c:332-409 | forgetting a pair of another node leaves the last under half full only if it does not touch it |
| `Layouts.LastFitsIff` | src/skiparray.c:1283-1361 | forgetting leaves a last node under half full that would fit into the one before it exactly when, by the sizes of the nodes before the call, the pair is not in the last node, that is under half full already, and the node before it is or comes to be small enough |
| `Layouts.LastStaysShort` | src/skiparray.c:332-409 | the concrete case of that: nodes of the keys 1 to 4 and of 5 keep their last node of one pair when 1 is forgotten, though it would fit into the one before |
| `Skiparrays.Skiparray.Rebalance` | src/skiparray.c:555-574 | where two nodes do not fit into one, the next ends with exactly half a node and the receiver with at least half and less than a full one |
| `Windows.ShiftedShaped` | src/skiparray.c:1340-1358 | in that case the number of pairs to move is positive, and moving them restores the occupancy bounds |
| `Windows.JoinedShaped` | src/skiparray.c:1301-1339 | merging a node that lacks pairs, as either half, restores the occupancy bounds |
| `Skiparrays.Skiparray.UnlinkNode` | src/skiparray.c:1363-1449 | exactly the given node leaves every level it is on, `height` falls to the tallest one left and `back` is repaired, though the walk compares with a key of the node before, which may hold the unlinked node's pairs |
| `Skiparrays.Skiparray.UnlinkLevels` | src/skiparray.c:1394-1447 | the walk down the levels, with one cursor carried over them, unlinks the node everywhere and terminates |
| `Skiparrays.Skiparray.PopFirst` | src/skiparray.c:498-582 | the first pair goes, EMPTY or LOCKED; the head node stays the head node, and is made up for like any other where it falls below half full |
| `Skiparrays.Skiparray.UnlinkSecond` | src/skiparray.c:543-564 | absorbing the second node needs only the head node's links and `nodes` to take it off every level |
| `Skiparrays.Skiparray.PopLast` | src/skiparray.c:584-634 | the last pair goes, EMPTY or LOCKED; an emptied last node is unlinked unless it is the head, and no other node changes |
| `Skiparrays.Skiparray.LastNode` | src/skiparray.c:454-471 | the descent ends at the last node |
| `Skiparrays.Skiparray.GetPair` | src/skiparray.c:126-152 | the pair whose key compares equal, if there is one |
| `Skiparrays.Skiparray.First` | src/skiparray.c:431-452 | the smallest pair, or EMPTY |
| `Skiparrays.Skiparray.Last` | src/skiparray.c:473-496 | the largest pair, or EMPTY |
| `Skiparrays.Skiparray.Count` | src/skiparray.c:417-429 | walking level 0 counts every pair once |
| `Skiparrays.Skiparray.NodeHeight` | src/skiparray.c:1240-1245 | for any answer of the level callback, wrapped to a byte, the node is on exactly the levels below the limit that are not above the answer plus one, and on level 0 at least |
| `Skiparrays.Skiparray.NewIterator` | src/skiparray.c:636-666 | a new iterator on the first pair joins the live ones, unless there are no pairs or no memory |
| `Skiparrays.Iter.Free` | src/skiparray.c:668-692 | any live iterator can be freed in any order: the list then holds exactly the others |
| `Skiparrays.Iter.Next` | src/skiparray.c:758-775 | one place further, END exactly when that is past the last pair |
| `Skiparrays.Iter.Prev` | src/skiparray.c:777-795 | one place back, also from past the end, END exactly when there is none; so it undoes Next |
| `Skiparrays.Iter.Get` | src/skiparray.c:797-814 | the pair at the iterator's place in the contents |
| `Skiparrays.Iter.Seek` | src/skiparray.c:713-756 | to the first pair whose key is not smaller; before the first and after the last it says so and does not move |
| `Pairs.MapSetIsUpdate` | src/skiparray.c:174-321 | setting in the sorted sequence is updating a Dafny map |
| `Pairs.MapForgetIsRemoval` | src/skiparray.c:332-409 | forgetting in it is removing from the map |
| `Builders.Builder.Append` | src/skiparray.c:873-949 | the pair joins at the end; with the check on, a key that does not ascend is refused, and then, as without memory, nothing changes; a node is added exactly where the last is full, and links lead to it on the levels that the level callback's answer makes for |
| `Builders.Builder.LinkLast` | src/skiparray.c:907-938 | along the trail the new last node is linked on every level, and the trail again holds the last node of each |
| `Windows.AppendedPacked` | src/skiparray.c:940-942 | filling the last node only when all before it are full keeps them full |
| `Builders.Builder.Finish` | src/skiparray.c:951-962 | what was built meets the full invariant, with every node but the last full |
| `Builders.Build` | src/skiparray.c:816-962 | an ascending run of appends fails exactly where memory is refused to the first pair of a node; else it gives a skiparray, configured as asked, of exactly those pairs, the same as setting them one by one in any order, in full nodes each as tall as the level callback has it at its first pair |
| `Windows.PackedFull` | src/skiparray.c:892-902 | packed, the last node is full exactly when the number of pairs is a multiple of the node size: that is when an append allocates |
| `Pairs.AnyOrder` | src/skiparray.c:159-163 | setting distinct pairs in any order gives their ascending listing |
| `Folds.Fold.InsertPair` | src/skiparray_fold.c:224-259 | the queue becomes the old one with the newly read input in front of the first entry whose key is not smaller, and its invariant holds again |
| `Queues.TurnedInserted` | src/skiparray_fold.c:239-247 | entering in front of equal keys keeps, among equal keys, the input read last in front: read after a later call, or in the same round with the higher id |
| `Queues.TurnedDropped` | src/skiparray_fold.c:306-315 | so does a call, after which a new round of reading begins |
| `Queues.QueuedInserted` | src/skiparray_fold.c:239-258 | entering before the first key that is not smaller keeps every id once, sorted, with EQ exactly where the next key is equal |
| `Queues.QueuedDropped` | src/skiparray_fold.c:306-315 | taking entries from the front keeps all of that, and leaves exactly their inputs unmarked |
| `Queues.DistinctBelow` | src/skiparray_fold_internal.h:20-26 | the queue never holds more ids than there are inputs |
| `Folds.Fold.CallWithNext` | src/skiparray_fold.c:261-316 | the callbacks for the front of the queue: one pair as it is, or all of an equal run but its last through merge first, in the queue's order |
| `Folds.Fold.StepActive` | src/skiparray_fold.c:182-222 | afterwards every input with pairs left has its next one in the queue, and iterators at their end are freed |
| `Folds.Fold.Next` | src/skiparray_fold.c:159-180 | DONE exactly when every pair has been used, with this fold's iterators released and all others kept; else the one step of the merge that is next, down to the order of the arguments |
| `Folds.Fold.Halt` | src/skiparray_fold.c:139-157 | frees exactly this fold's iterators that are still live |
| `Folds.Init` | src/skiparray_fold.c:46-137 | opens an iterator per non-empty skiparray with nothing used up; where memory runs out, the iterators there were are all that is left |
| `Folds.FoldAll` | src/skiparray_fold.c:33-44 | folding until DONE terminates, is a run of merge steps, uses up everything and leaves the iterators there were |
| `WholeFolds.MergeAll` | src/skiparray_fold.c:46-316 | a left fold over any skiparrays: every pair of each used exactly once and in order, keys in non-decreasing order, twice and adjacent exactly for keys that two skiparrays hold; strictly ascending exactly when no key is shared, and then the sorted merge; all calls and merges are those of the run; with a merge callback that chooses among its arguments, only pairs that the skiparrays hold are passed on |
| `WholeFolds.MergeBack` | src/skiparray_fold.c:46-316 | a right fold over any skiparrays: every pair of each used exactly once, from the last to the first; keys descend exactly when at most one skiparray is not empty |
| `WholeFolds.FoldOne` | src/skiparray_fold.c:26-44 | a fold over one skiparray, left or right, passes on its contents in the fold's order, and leaves it with the iterators it had |
| `Merges.CallMeets` | src/skiparray_fold.c:261-316 | what the queue's front calls for is the step of the merge: the smallest head, merged from all heads equal to it but one |
| `Merges.CallInTurn` | src/skiparray_fold.c:261-316 | it merges them from the input read last to the one read first, which is left over |
| `Merges.MergeArguments` | src/skiparray_fold.c:286-304 | argument by argument, the merge callback gets key and value of the head of each input that the call uses, in the call's order, and what is passed on is the key it chooses and the value it gives |
| `Merges.PassesOwn` | src/skiparray_fold.c:261-316 | with a merge callback that chooses one of its pairs, every call of a run passes on the head, in key and value, of an input it uses |
| `Merges.PassesPlace` | src/skiparray_fold.c:261-316 | with one that always chooses the same place, that of the input at that place |
| `Merges.StepShrinks` | src/skiparray_fold.c:170-180 | every OK step leaves fewer pairs to use, so the fold ends |
| `Merges.Conserving` | src/skiparray_fold.c:182-316 | at any point of a run exactly the pairs read and used of each input have reached a callback, once each and in order |
| `Merges.Ordered` | src/skiparray_fold.c:239-252 | over ascending inputs keys reach the fold callback in non-decreasing order |
| `Merges.LeftOver` | src/skiparray_fold.c:242-297 | several equal heads take two calls: a merge of all but the one read first, then at once that one as it is |
| `Merges.AtMostTwice` | src/skiparray_fold.c:242-297 | no key reaches the fold callback more than twice |
| `Merges.AgainIff` | src/skiparray_fold.c:242-297 | a call is followed by one with the same key exactly when several inputs had that key at their heads |
| `Merges.TwiceIff` | src/skiparray_fold.c:242-297 | a key reaches the fold callback twice exactly when two inputs hold it |
| `Merges.DisjointIff` | include/skiparray.h:388-392 | one call per distinct key exactly when no two inputs share a key |
| `Merges.NotOncePerKey` | src/skiparray_fold.c:242-297 | the concrete case: two inputs of one pair each with equal keys make for two calls |
| `Merges.SortedMerge` | src/skiparray_fold.c:182-316 | inputs without common keys give exactly their sorted merge |
| `Merges.OneInput` | src/skiparray_fold.c:33-44 | a run over one input passes on its pairs one by one |
| `Turns.StepDetermined` | src/skiparray_fold.c:159-316 | there is one step to take: which inputs are used, in which order, and what is passed on |
| `Turns.RunDetermined` | src/skiparray_fold.c:159-316 | all calls of a whole fold follow from the inputs and the merge callback |
| `Turns.RunExists` | src/skiparray_fold.c:159-316 | for all inputs there is such a run to the end |
| `Turns.GivenOrderIff` | include/skiparray.h:354-359 | the merge callback gets its arguments, keys and values, in the order of the skiparrays exactly when, of any two merged ones, the one given first was used by a later call than the other |
| `Turns.UsedLaterIff` | src/skiparray_fold.c:190-220 | over ascending inputs that is seen from the keys before the equal ones: the larger was used later, of equal ones the one left over, and an unused input never |
| `Turns.NotInGivenOrder` | include/skiparray.h:354-359 | the concrete case: of three skiparrays with one equal pair each, the callback is given the third's key and value before the second's, and the first's is passed on by itself |
| `Descents.FallsIff` | include/skiparray.h:388-390 | over descending inputs, keys descend exactly when at most one input is not empty |
| `Descents.NeverRisesIff` | src/skiparray_fold.c:239-252 | they never rise exactly when all inputs that are not empty share their largest key, and all of those but the first hold only that |
| `Descents.NotDescending` | include/skiparray.h:388-390 | the concrete case: folding right over the keys 1 and 2 in two skiparrays passes on 1 and then 2 |
| `Filters.Filter` | src/skiparray_hof.c:15-72 | a new, well-formed skiparray of exactly the pairs that pass, in order, packed into full nodes each as tall as the level callback has it at its first pair; NULL exactly when the builder or the fold cannot start or memory is refused where a pair that passes is the first of a node behind the first; the source keeps its pairs and its iterators |
| `Filters.KeptExactly` | src/skiparray_hof.c:15-27 | the pairs kept are those of the source that pass |

## Code and documentation

Three promises of `include/skiparray.h` do not hold of `src/skiparray_fold.c` in general. The
model follows the code, and says for each when it holds and where it does not.

- Lines 388-392 read as one fold call per distinct key. The last entry of an equal run is never
  marked EQ, so k equal keys give a merge over k - 1 of them and a separate call for the last.
  There is one call per key exactly when no two skiparrays share one (`Merges.DisjointIff`, key
  by key `Merges.TwiceIff`); `Merges.NotOncePerKey` is the case of two equal keys.
- Lines 354-359 promise merge arguments in the order of the skiparrays. The queue enters an equal
  key in front of those already there, so the input read last comes first. `Turns.GivenOrderIff`
  says when that is the promised order, `Turns.UsedLaterIff` says it by the keys, and
  `Turns.NotInGivenOrder` is the case of three equal keys.
- Lines 388-390 promise descending keys for right folds. Each skiparray is read from its end, but
  the queue is sorted ascending in both directions. Keys descend exactly when at most one skiparray
  is not empty (`Descents.FallsIff`); `Descents.NotDescending` is the case of two.

## Left out

- Memory itself: `mem`, `node_free`, `skiparray_free`, `skiparray_builder_free` and the user's free callback; an allocation is a parameter that says whether it succeeds, and freed objects are merely no longer linked.
- `skiparray_new` and `skiparray_builder_new`, failing: argument, configuration and allocation errors, and the defaults for zero fields; the constructors start from a configuration that passes. A level callback that answers 255 for the first node, so that the root's height wraps to 0, is excluded.
- `maxLevel` above 32: assumed within include/skiparray.h:32-33, which `skiparray_new` does not check.
- The misuse checks of `skiparray_fold_multi_init`: one-branch facts. A fold that fails for its own two allocations is one parameter, `allocOk`.
- NULL out-parameters and NULL arguments: results are returned as values; values are NULL throughout where the skiparray ignores them.
- `skiparray_get`, `skiparray_member`: both are `GetPair` without part of its result.
- `unlink_node` for a node without one before it (the branches on `n->back == NULL`): every call passes a node with a predecessor, which is the precondition `0 < k` of `Skiparrays.Skiparray.UnlinkNode`, proved at each call.
- `skiparray_iter_next` once it has answered END: its index would leave the node; `Iter.Next` asks for an iterator that is on a pair.
- A builder without the ascending check that is given keys out of order: `Builder.Append` then asks the caller for ascending keys.
- `cmp` in general: a fixed total preorder, given by integer ranks; the callbacks for folding, merging and filtering are pure functions, and what a user callback may do to the skiparray meanwhile is not modelled.
- `splitmix64_stateless` and `def_level_fun`: heights are arbitrary, so nothing is said about how likely they are, nor about running time.
- Counter widths: node counts stay within `nodeSize < 65536` and ids below 256, both proved or required, so the unsigned fields never wrap; the level callback's byte is wrapped explicitly.
- Logging and `dump_raw_bindings`; they have no effect on state.
