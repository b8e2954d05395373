# The ordered maps, sets and heaps, verified

This project models the B-tree behind `BTreeMap` as it lies in memory, the map with its iterators, filters and cursors,
the binary heap, and the set algebra, and proves what they promise for all inputs and all runs.

The map is a B-tree: nodes of at most 11 pairs, at least 5 except in the root, all leaves equally deep, and in every
node a link to its parent with the index of the edge that leads down. Nodes are objects with arrays that are shifted and
moved in place (`Nodes`). A `Pool` is the memory: it knows the nodes in use, hands out new ones and takes released ones
back, and its `Mem()` is what all of them hold. A `Tree` is what a node and those below it hold, as a value (`Trees`);
`Flat` gives its pairs in order. `Holds` says that memory holds a tree on its own, with no node twice, every parent link
right and nothing above its root. `Becomes`, `Divides`, `Unites` and `Trades` say that trees gave way to others: no
other node changed, the nodes no longer used are released, and the nodes added are new (`Memory`). The methods see only
nodes, handles and indices, as the code does; trees and the paths to places in them are ghosts.

- `Nodes`, `Cells`: the arrays of a node and the moves on them; memory.
- `Trees`, `Edits`, `Rows`, `Shapes`, `Memory`: trees as values, what cutting, joining and regrouping nodes keeps, where
  a leaf and a pair are, how full nodes are, and how trees lie in memory.
- `Balance`, `Places`, `Rebuild`, `Roots`: merging, stealing, splitting, hanging and moving in memory, at any place.
- `Fix`, `Remove`, `Insert`, `Borders`, `SplitOff`, `BulkPush`, `Append`, `MergeIters`, `Lengths`: the operations on
  trees, several of which pass through trees that are not valid.
- `Navigate`, `Search`, `Ranges`, `Iters`, `Dying`, `IntoIters`: leaf edges, search, ranges and iterators.
- `Maps`, `Drains`, `Cursors`: the map, filtering while walking, cursors.
- `Orders`, `Runs`: sorted association lists, and runs on many maps that refine runs on such lists.
- `Heaps`, `Sets`: the binary heap and the set algebra.

A search comparator says Greater of a stored key that lies before the sought place; the comparator of a merge says Less
if the left pair comes first. Both are tied to one strict weak order in `Orders`. `dafny verify dfyconfig.toml` checks
the whole project.

## Model

| member | source | states |
|---|---|---|
| `Runs.RunAll` | src/liballoc/collections/btree/map.rs:607-1352 | Any run of creating, inserting, removing, getting, popping at either end, retaining, clearing, appending, splitting off and dropping, on any number of maps in one memory, answers as the same run on sorted association lists does; once all maps are dropped, no node is left in memory |
| `Runs.Run` | src/liballoc/collections/btree/map.rs:686-1352 | A run from any reachable state answers as the lists do, and afterwards every map holds a valid tree with exactly the pairs of its list and their number as length, the lists are ascending without equivalent keys, and no node belongs to two maps or to none |
| `Runs.StepSorted` | src/liballoc/collections/btree/map.rs:54-60 | What any one operation makes of ascending lists without equivalent keys is again such lists |
| `Runs.PlayStep` | src/liballoc/collections/btree/map.rs:607-1352 | A run is one step after the other, each on what the steps before left, with one answer for each |
| `Runs.StepMeans` | src/liballoc/collections/btree/map.rs:1114-1352 | Each operation changes only the lists it names; appending keeps the pairs of the second list and those of the first without an equivalent key in it, and empties the second; splitting off leaves the smaller keys and gives the others to the new list |
| `Runs.InsertMeans` | src/liballoc/collections/btree/map.rs:951-962 | After inserting, the key is found with the new value under the key stored before, if there was one; every other key is found as before; the answer is the old value |
| `Runs.RemoveMeans` | src/liballoc/collections/btree/map.rs:1040-1058 | After removing, the key is not found; every other key is found as before; the answer is the value removed |
| `Runs.GetClearMean` | src/liballoc/collections/btree/map.rs:627-695 | Getting answers the value found and changes nothing; clearing leaves nothing |
| `Runs.PopMeans` | src/liballoc/collections/btree/map.rs:793-868 | Popping takes out and answers the pair with the least key, or with the greatest, and none of an empty list |
| `Runs.RetainMeans` | src/liballoc/collections/btree/map.rs:1076-1081 | After retaining, a stored key is found exactly if the predicate accepts its pair in the state that the pairs before left it in, with the value it gives then |
| `Orders.SortedUnique` | src/liballoc/collections/btree/map.rs:54-60 | Ascending lists with the same pairs are the same, so look-ups and membership say all about a map |
| `Orders.InsertedAssigns` | src/liballoc/collections/btree/map.rs:1270-1299 | Where the comparator of `entry` places a new key, inserting there is assignment in a sorted association list: an equivalent stored key stays and gets the new value, else the pair goes between the smaller and the greater keys |
| `Orders.RemovedIsWithout` | src/liballoc/collections/btree/map.rs:1040-1058 | Taking out the pair the comparator hits leaves the pairs with smaller and greater keys; the pair found is the one with an equivalent key |
| `Orders.FindHas` | src/liballoc/collections/btree/map.rs:686-695 | Looking up a key finds a pair exactly if it is stored with an equivalent key, so there is at most one |
| `Orders.CutDivides` | src/liballoc/collections/btree/map.rs:1330-1352 | Cutting at a key leaves the pairs with smaller keys on the left and all others on the right |
| `Orders.UnionIsWithAll` | src/liballoc/collections/btree/merge_iter.rs:54-85 | The merge of two ascending sources is the second put into the first pair by pair |
| `Orders.WithAllHas` | src/liballoc/collections/btree/map.rs:1082-1140 | A pair is in the result of appending exactly if it is in the second map, or in the first one with no equivalent key in the second |
| `Maps.BTreeMap.Get` | src/liballoc/collections/btree/map.rs:686-695 | Gives the value of the pair the comparator hits, or none, with at most 11 comparator calls per level and so at most 11 * (log6((n + 1) / 2) + 1) calls on n pairs |
| `Maps.SoughtHas` | src/liballoc/collections/btree/map.rs:686-695 | For any comparator, the pair sought is the one stored whose key it says Equal of |
| `Shapes.LogIsFloor` | src/liballoc/collections/btree/map.rs:54-60 | The logarithm in that bound is the exponent of the greatest power of 6 not above |
| `Maps.BTreeMap.FindEntry` | src/liballoc/collections/btree/map.rs:1270-1299 | An entry is occupied by the one pair the comparator hits, or vacant at the leaf edge with as many pairs before it as the comparator says, or at no edge if there is no root yet |
| `Maps.BTreeMap.Insert` | src/liballoc/collections/btree/map.rs:951-962 | Puts the pair where the comparator says, or keeps the stored key, sets the value and returns the old one; the tree stays valid, the length exact, and memory changes only in nodes of this map |
| `Maps.BTreeMap.InsertVacant` | src/liballoc/collections/btree/map/entry.rs:336-371 | Puts a pair at a vacant gap, at a leaf edge or in a first root if there is none: it comes to lie at exactly that gap, the returned handle designates it even after the root has split, and the length grows by one |
| `Maps.BTreeMap.ReplaceOccupied` | src/liballoc/collections/btree/map/entry.rs:507-509 | Changes only the value of one pair and returns the old value |
| `Maps.BTreeMap.RemoveOccupied` | src/liballoc/collections/btree/map/entry.rs:533-545 | Takes one pair out, popping the root if that empties it: all other pairs stay in order in a valid tree with exact length |
| `Maps.BTreeMap.RemoveEntry` | src/liballoc/collections/btree/map.rs:1040-1058 | Takes out and returns the pair the comparator hits; changes nothing if there is none |
| `Maps.BTreeMap.PopFirst` | src/liballoc/collections/btree/map.rs:793-795 | Takes out and returns the first pair, or none of an empty map |
| `Maps.BTreeMap.PopLast` | src/liballoc/collections/btree/map.rs:866-868 | Takes out and returns the last pair, or none of an empty map |
| `Maps.BTreeMap.SplitOff` | src/liballoc/collections/btree/map.rs:1330-1352 | The map keeps the pairs before the place, the new map has the others; both are valid with exact lengths and share no node |
| `Maps.BTreeMap.Append` | src/liballoc/collections/btree/map.rs:1114-1140 | The map holds the merge of both, the other map is empty; all nodes of either are in use by the map or released |
| `Maps.BTreeMap.IntoIter` | src/liballoc/collections/btree/map.rs:1678-1695 | The owning iterator has exactly the pairs and the nodes of the map |
| `Maps.BTreeMap.Clear` | src/liballoc/collections/btree/map.rs:627-635 | The map is empty and every node it had is released, none twice |
| `Shapes.SizeOfFull` | src/liballoc/collections/btree/node.rs:44-49 | A tree of height h whose root has at least lo pairs holds between (lo + 1) * 6^h - 1 and 12^(h + 1) - 1 pairs |
| `Shapes.HeightIsLogarithmic` | src/liballoc/collections/btree/map.rs:54-60 | A tree of a map with n pairs is at most log6((n + 1) / 2) high |
| `Search.SearchTree` | src/liballoc/collections/btree/search.rs:48-64 | For any comparator that says Greater, then at most once Equal, then Less along the pairs: finds the pair it hits, and only then, or else the leaf edge where such a pair belongs; a path of k steps takes at most 11 * (k + 1) comparator calls |
| `Search.SearchNode` | src/liballoc/collections/btree/search.rs:167-175 | One step of the search: the pair in this node, or the edge under which the place lies, with at most 11 calls |
| `Search.FindKeyIndex` | src/liballoc/collections/btree/search.rs:185-200 | Stops at the first pair that is not Greater, telling whether it is Equal |
| `Search.FindLowerBoundIndex` | src/liballoc/collections/btree/search.rs:207-223 | The pairs before a lower bound are those left of the edge found and those before the bound that goes on under it, for all four kinds of bounds |
| `Search.BoundsLand` | src/liballoc/collections/btree/search.rs:10-20 | What the four kinds of bounds mean: a pair lies behind a lower, or before an upper bound, exactly if its key satisfies that bound |
| `Ranges.SearchTreeForBifurcation` | src/liballoc/collections/btree/search.rs:81-124 | Finds a node where the two bounds lie under different edges exactly if some pair lies between the bounds, crossed bounds included, and gives the bounds to go on with; otherwise gives the leaf edge at the lower bound |
| `Ranges.FindLeafEdgesSpanningRange` | src/liballoc/collections/btree/navigate.rs:254-297 | Gives the leaf edges with exactly as many pairs before them as lie before the lower bound and not behind the upper one, or none if no pair lies between |
| `Ranges.RangeSearch` | src/liballoc/collections/btree/navigate.rs:315-330 | For any two comparators and any two bounds, the range has exactly the pairs behind the lower and before the upper bound |
| `Ranges.LeafRange.NextChecked` | src/liballoc/collections/btree/navigate.rs:67-80 | Takes the first pair of what is left of the range |
| `Ranges.LeafRange.NextBackChecked` | src/liballoc/collections/btree/navigate.rs:83-96 | Takes the last pair of what is left of the range |
| `Ranges.LowerBound` | src/liballoc/collections/btree/navigate.rs:752-771 | The leaf edge with exactly the pairs before the lower bound in front of it |
| `Ranges.UpperBound` | src/liballoc/collections/btree/navigate.rs:775-794 | The leaf edge with exactly the pairs not behind the upper bound in front of it |
| `Iters.RunRange` | src/liballoc/collections/btree/map.rs:1971-2007 | Any interleaving of `next` and `next_back` on a range takes the ends of its pairs, then nothing |
| `Iters.RunRangeOf` | src/liballoc/collections/btree/map.rs:1171-1194 | On any map, one without a root included, any interleaving of calls on the range between any two bounds takes the ends of the pairs behind the lower and before the upper bound, then nothing |
| `Orders.BetweenIsThose` | src/liballoc/collections/btree/map.rs:1171-1194 | For any two comparators and any kinds of bounds, a range has exactly the pairs whose keys satisfy both bounds, in order and once each |
| `Orders.RangeBetweenKeys` | src/liballoc/collections/btree/map.rs:1142-1147 | Between two keys, a range has, ascending, exactly the pairs whose keys are above the lower key and below the upper, or equivalent to it where that bound is included |
| `IntoIters.TakenAt` | src/liballoc/collections/btree/map.rs:1558-1594 | In any interleaving of calls at both ends of n pairs, the k-th call answers nothing if k pairs are gone; else at the front the pair behind as many as there were calls at the front before, and at the back the pair before as many as there were at the back |
| `Iters.RunIter` | src/liballoc/collections/btree/map.rs:1558-1594 | Any interleaving of `next` and `next_back` on the iterator over a whole map takes the ends of its pairs, then nothing; its ends may not yet have left the root, and its remaining length decides when it is over |
| `Orders.CrossedRangeIsEmpty` | src/liballoc/collections/btree/map.rs:1151-1152 | No pair lies between crossed bounds, for which the comment promises a panic |
| `Navigate.EdgeOfGap` | src/liballoc/collections/btree/navigate.rs:643-745 | Each of the n + 1 gaps of a tree with n pairs has a leaf edge |
| `Navigate.GapOfOneEdge` | src/liballoc/collections/btree/navigate.rs:643-745 | No gap has two leaf edges |
| `Navigate.SameEdgeSameGap` | src/liballoc/collections/btree/navigate.rs:28-30 | Two leaf edges are the same handle in memory exactly if no pair lies between them |
| `Navigate.PairsBesideEdge` | src/liballoc/collections/btree/navigate.rs:393-430 | The pairs of a leaf left and right of an edge lie on either side of its gap |
| `Navigate.PairAtIndex` | src/liballoc/collections/btree/node.rs:1103-1109 | The pair of a node is the one at its index among all pairs in order |
| `Navigate.NextKv` | src/liballoc/collections/btree/navigate.rs:393-409 | The pair right of a leaf edge has as many pairs before it as the edge; there is none exactly at the end |
| `Navigate.NextBackKv` | src/liballoc/collections/btree/navigate.rs:414-430 | The pair left of a leaf edge is the last of the pairs before it; there is none exactly at the start |
| `Navigate.NextLeafEdge` | src/liballoc/collections/btree/navigate.rs:724-732 | The leaf edge behind a pair, one gap on |
| `Navigate.NextBackLeafEdge` | src/liballoc/collections/btree/navigate.rs:735-745 | The leaf edge before a pair, with the same pairs in front of it |
| `Places.UpAndDown` | src/liballoc/collections/btree/node.rs:320-344 | From any node below the root of a tree held by memory, ascending and then descending leads back to that node |
| `Places.DownAndUp` | src/liballoc/collections/btree/node.rs:1078-1099 | From any internal node, descending any edge and then ascending leads back to that node and that edge |
| `Lengths.CalcLength` | src/liballoc/collections/btree/navigate.rs:677-717 | The result is the number of pairs; every node is visited exactly once |
| `Lengths.CalcSplitLength` | src/liballoc/collections/btree/split.rs:10-26 | Counting only the lower of two trees gives the exact lengths of both |
| `Nodes.SliceInsert` | src/liballoc/collections/btree/node.rs:1787-1797 | Inserts into a slice in place: what lies before and behind stays in order, and what lies beyond the slice is untouched |
| `Nodes.SliceRemove` | src/liballoc/collections/btree/node.rs:1804-1813 | Takes one element out of a slice in place and closes the gap |
| `Nodes.SliceShl` | src/liballoc/collections/btree/node.rs:1819-1824 | Shifts a slice left in place |
| `Nodes.SliceShr` | src/liballoc/collections/btree/node.rs:1830-1835 | Shifts a slice right in place |
| `Nodes.MoveToSlice` | src/liballoc/collections/btree/node.rs:1840-1845 | Moves a slice of one buffer to one of another, whose rest is untouched |
| `Edits.FlatMerged` | src/liballoc/collections/btree/node.rs:1359-1420 | Merging two children with the pair between them keeps the in-order pairs of the parent |
| `Edits.FlatStolenLeft` | src/liballoc/collections/btree/node.rs:1493-1553 | Moving any number of pairs, with their children, from a left child through the parent to the right one keeps the in-order pairs of the parent |
| `Edits.FlatStolenRight` | src/liballoc/collections/btree/node.rs:1556-1617 | Moving any number of pairs, with their children, from a right child through the parent to the left one keeps the in-order pairs of the parent |
| `Edits.CutSizes` | src/liballoc/collections/btree/node.rs:1222-1273 | A split leaves the pairs before in one part and those behind in the other, with their children |
| `Edits.MergedSizes` | src/liballoc/collections/btree/node.rs:1359-1420 | A merge leaves one pair and one child less in the parent, and only the left child is changed |
| `Edits.StolenLeftSizes` | src/liballoc/collections/btree/node.rs:1493-1553 | Stealing moves just the number asked for from left to right; the parent and all other children keep their sizes |
| `Edits.StolenRightSizes` | src/liballoc/collections/btree/node.rs:1556-1617 | Stealing moves just the number asked for from right to left; the parent and all other children keep their sizes |
| `Places.PutThenTake` | src/liballoc/collections/btree/node.rs:1787-1797 | A pair put in is at its index with the others around it in order, and taking it out again undoes that |
| `Places.TakeThenPut` | src/liballoc/collections/btree/node.rs:1804-1813 | A pair taken out leaves the others in order, and putting it back undoes that |
| `Balance.DoMerge` | src/liballoc/collections/btree/node.rs:1359-1420 | In memory, merging leaves the merged tree with all parent links and indices right, releases exactly the right child, and touches nothing else |
| `Places.StealLeft` | src/liballoc/collections/btree/node.rs:1493-1553 | Stealing any number of pairs from the left, anywhere in a tree, leaves exactly the regrouped tree with all parent links right; no node is new or released |
| `Places.StealRight` | src/liballoc/collections/btree/node.rs:1556-1617 | The same from the right |
| `Rebuild.Split` | src/liballoc/collections/btree/node.rs:1222-1273 | Splitting any node around any pair leaves the part before the pair in place and the part behind it in a new tree of its own, with all parent links right |
| `Rebuild.HangAt` | src/liballoc/collections/btree/node.rs:978-991 | Hanging a tree into an internal node beside a pair makes one tree of two, with all parent links right |
| `Rebuild.MoveSuffix` | src/liballoc/collections/btree/node.rs:1676-1716 | Moves the pairs and children behind an edge of one tree into an empty node of another, leaving both trees with all parent links right |
| `Roots.Root.PushInternalLevel` | src/liballoc/collections/btree/node.rs:598-606 | Adds a level above the root, whose one edge leads to it |
| `Roots.Root.PopInternalLevel` | src/liballoc/collections/btree/node.rs:617-634 | Takes the top level off and releases its node; the only child becomes the root |
| `Insert.CutKvs` | src/liballoc/collections/btree/node.rs:884-899 | Splitting a full node at the split point and then inserting is the same as inserting first and then cutting at one of the two middle pairs; both parts have at least 5 pairs |
| `Insert.LeafSplits` | src/liballoc/collections/btree/node.rs:929-959 | After a full leaf is split, putting the middle pair and the right part behind the left part makes the tree with the inserted pair at its gap, where the handle says |
| `Insert.SplitInternal` | src/liballoc/collections/btree/node.rs:996-1023 | Inserting a pair and a subtree into a full internal node leaves the two parts of the overfull node as trees of their own and the pair between them |
| `Insert.InsertRecursing` | src/liballoc/collections/btree/node.rs:1034-1066 | Inserting at any leaf edge puts the pair at exactly that gap of a valid tree through any number of splits; the root splits, and the height grows by one, exactly if every node on the way to the leaf holds 11 pairs; the returned handle designates the inserted pair in a leaf |
| `Insert.FilledOnTheWay` | src/liballoc/collections/btree/node.rs:1034-1066 | That condition says of every place on the path, the root and the leaf included, that its node holds 11 pairs |
| `Fix.ChooseParentKv` | src/liballoc/collections/btree/node.rs:1311-1330 | The pair through which a node is balanced is the one on its left if it has one; there is none only at the root |
| `Fix.AfterMerge` | src/liballoc/collections/btree/fix.rs:10-46 | After a merge at most the parent is underfull, and the pairs and, above the leaves, the row of leaves are the same |
| `Fix.FixNodeThroughParent` | src/liballoc/collections/btree/fix.rs:10-46 | With one possibly underfull node, one step either completes the tree, or leaves only the parent possibly underfull, or stands at an empty root |
| `Fix.FixNodeAndAffectedAncestors` | src/liballoc/collections/btree/fix.rs:57-65 | Upward repair ends with the same pairs and every node but the root full enough; it returns false exactly if the root is left without pairs |
| `Remove.MergeTrackingChildEdge` | src/liballoc/collections/btree/node.rs:1449-1466 | The tracked edge of either child has as many pairs before it after the merge as before |
| `Remove.RemoveLeafKv` | src/liballoc/collections/btree/remove.rs:23-72 | Removing the pair with i pairs before it from a leaf leaves exactly the others in a valid tree, or one with an emptied root to pop, and a leaf edge at gap i |
| `Remove.RemoveInternalKv` | src/liballoc/collections/btree/remove.rs:76-94 | The same for a pair of an internal node, which may have moved by the time its left neighbour takes its place |
| `Remove.RemoveKvTracking` | src/liballoc/collections/btree/remove.rs:10-19 | The same for any pair of any valid tree, whether an emptied root is popped at once or left to the caller |
| `SplitOff.NewPillar` | src/liballoc/collections/btree/split.rs:71-77 | A new tree of one empty node on every level |
| `SplitOff.CutLeaves` | src/liballoc/collections/btree/split.rs:33-68 | Once the two nodes on the cut are leaves, the trees hold exactly the pairs before and from the place on, with underfull or empty nodes only on the right and the left border |
| `Borders.FixTop` | src/liballoc/collections/btree/fix.rs:70-74 | Releases all empty levels on top of a tree but an empty leaf |
| `Borders.FixRightBorder` | src/liballoc/collections/btree/fix.rs:79-85 | From any tree with underfull or empty nodes on its right border only, makes a valid tree with the same pairs |
| `Borders.FixLeftBorder` | src/liballoc/collections/btree/fix.rs:88-94 | The same for the left border |
| `Borders.FixRightChild` | src/liballoc/collections/btree/fix.rs:161-178 | Going down the right border, leaves a child with a pair more than it needs, so that the next merge below may take one |
| `SplitOff.SplitOff` | src/liballoc/collections/btree/split.rs:33-68 | Splits any valid tree into two valid trees, one with the pairs before the place and one with the others, that share no node |
| `MergeIters.HandsUnion` | src/liballoc/collections/btree/merge_iter.rs:54-85 | Handing out the smaller of two heads, or both if equal, and keeping the other, gives the merge with the pair of the second source on equal keys |
| `MergeIters.MergeIter.Nexts` | src/liballoc/collections/btree/merge_iter.rs:54-85 | Hands out the smaller of two heads, or both if equal, or the only one, and keeps the other for the next call |
| `MergeIters.MergeIter.Next` | src/liballoc/collections/btree/append.rs:105-108 | Takes the first pair of the merge; once it gives none, all nodes of both sources are released |
| `BulkPush.PushLast` | src/liballoc/collections/btree/append.rs:39-91 | Pushing one pair puts it behind all others, opening new levels as needed; if every node off the right border holds at least 10 pairs, or 11, that stays so |
| `BulkPush.FixRightBorderOfPlentiful` | src/liballoc/collections/btree/fix.rs:99-114 | From any tree with 10 pairs or more in every node off the right border, makes a valid tree with the same pairs: there are always enough to steal |
| `Append.AppendFromSortedIters` | src/liballoc/collections/btree/append.rs:19-34 | A tree with 10 pairs or more in every node off the right border gets all pairs of the merge behind its own and is valid, the length grows by their number, and the nodes of the sources are released |
| `Dying.DeallocatingNext` | src/liballoc/collections/btree/navigate.rs:472-489 | Takes the next pair from the front and releases exactly the nodes left behind for good, whatever the other end has released; only nodes in memory are read |
| `Dying.DeallocatingNextBack` | src/liballoc/collections/btree/navigate.rs:504-521 | The same from the back |
| `Dying.DeallocatingEnd` | src/liballoc/collections/btree/navigate.rs:529-536 | Once the ends have met, releases all nodes that are left |
| `Dying.LiveBetween` | src/liballoc/collections/btree/navigate.rs:472-521 | With the ends at two leaf edges, just those nodes are in memory that still have a gap between the ends |
| `IntoIters.IntoIter.Next` | src/liballoc/collections/btree/map.rs:1725-1735 | Takes the first pair left, or releases all nodes left and gives none |
| `IntoIters.IntoIter.NextBack` | src/liballoc/collections/btree/map.rs:1739-1749 | Takes the last pair left, or releases all nodes left and gives none |
| `IntoIters.IntoIter.Drop` | src/liballoc/collections/btree/map.rs:1699-1719 | Releases all nodes left |
| `IntoIters.RunAndDrop` | src/liballoc/collections/btree/map.rs:1699-1769 | Over any interleaving of calls on both ends, ended by dropping, the pairs come out as the ends of the original sequence and every node is released, none twice and none read afterwards |
| `Drains.PairKeptOrGone` | src/liballoc/collections/btree/map.rs:1930-1954 | Each pair is shown once, in order; it is handed out if accepted, and else stays, with its new value either way, and at its place among the others |
| `Drains.StateAfterNext` | src/liballoc/collections/btree/map.rs:1930-1954 | The predicate's state passes from each pair to the next |
| `Drains.GoneHas` | src/liballoc/collections/btree/map.rs:1930-1954 | What is handed out are the pairs accepted, with the values the predicate gives them, and nothing else |
| `Drains.DrainedStops` | src/liballoc/collections/btree/map.rs:1930-1954 | One call goes just as far as the first pair accepted, or to the end if there is none |
| `Drains.DrainedSplits` | src/liballoc/collections/btree/map.rs:1930-1954 | Handing out one accepted pair after another hands out all accepted ones and leaves all others |
| `Drains.DrainFilter.Next` | src/liballoc/collections/btree/map.rs:1930-1954 | One call walks over the pairs not accepted to the next accepted one and takes that out; between calls the tree is valid and the length exact, even when the root is popped midway |
| `Drains.DrainFilter.Drop` | src/liballoc/collections/btree/map.rs:1891-1893 | Dropping finishes the walk: the map keeps exactly the pairs not accepted |
| `Drains.Retain` | src/liballoc/collections/btree/map.rs:1076-1081 | Keeps exactly the pairs the predicate accepts, with the values it gives them; it sees every original pair once, in order |
| `Cursors.PointsOnce` | src/liballoc/collections/btree/map.rs:2690-2725 | Every one of the n + 1 positions on the circle of n pairs and the ghost is one handle |
| `Cursors.AroundTheCircle` | src/liballoc/collections/btree/map.rs:2690-2725 | Moving on and back are steps by one in a circle of n + 1 positions |
| `Cursors.PairsAround` | src/liballoc/collections/btree/map.rs:2757-2779 | What lies at a position, next to it and before it, with the ghost between the last pair and the first |
| `Cursors.Cursor.MoveNext` | src/liballoc/collections/btree/map.rs:2695-2706 | Moves one position on along the circle |
| `Cursors.Cursor.MovePrev` | src/liballoc/collections/btree/map.rs:2714-2725 | Moves one position back along the circle |
| `Cursors.Cursor.NextThenPrev` | src/liballoc/collections/btree/map.rs:2690-2725 | Moving on and back ends at the same position and handle, from anywhere |
| `Cursors.Cursor.PrevThenNext` | src/liballoc/collections/btree/map.rs:2709-2725 | Moving back and on ends at the same position and handle, from anywhere |
| `Cursors.Cursor.PeekNext` | src/liballoc/collections/btree/map.rs:2763-2767 | The pair one position on, none if that is the ghost |
| `Cursors.Cursor.PeekPrev` | src/liballoc/collections/btree/map.rs:2775-2779 | The pair one position back; from the ghost, the last one |
| `Cursors.AtLowerBound` | src/liballoc/collections/btree/map.rs:2468-2478 | The cursor is at the first pair above the bound, or at the ghost |
| `Cursors.AtUpperBound` | src/liballoc/collections/btree/map.rs:2561-2571 | The cursor is at the last pair below the bound, or at the ghost |
| `Cursors.AtLowerBoundMut` | src/liballoc/collections/btree/map.rs:2506-2533 | The mutable cursor is at the first pair above the bound, or at the ghost |
| `Cursors.AtUpperBoundMut` | src/liballoc/collections/btree/map.rs:2599-2626 | The mutable cursor is at the last pair below the bound, or at the ghost |
| `Cursors.CursorMut.MoveNext` | src/liballoc/collections/btree/map.rs:2790-2802 | Moves one position on along the circle |
| `Cursors.CursorMut.MovePrev` | src/liballoc/collections/btree/map.rs:2810-2822 | Moves one position back along the circle |
| `Cursors.CursorMut.PeekNext` | src/liballoc/collections/btree/map.rs:2902-2920 | The pair one position on, none if that is the ghost |
| `Cursors.CursorMut.AsCursor` | src/liballoc/collections/btree/map.rs:2958-2964 | A read-only cursor at the same place |
| `Cursors.CursorMut.PeekPrev` | src/liballoc/collections/btree/map.rs:2928-2950 | The pair one position back; from the ghost, the first one |
| `Cursors.SeenBackIs` | src/liballoc/collections/btree/map.rs:2928-2950 | A mutable cursor sees the pair before its pair, none at the first; at the ghost the first pair, of any map |
| `Cursors.CursorMut.InsertAfter` | src/liballoc/collections/btree/map.rs:2983-3011 | Inserts right behind the cursor, at the ghost in front of all pairs, in a valid tree; the cursor stays at its pair, or at the ghost |
| `Cursors.CursorMut.InsertBefore` | src/liballoc/collections/btree/map.rs:3026-3054 | Inserts right before the cursor, at the ghost behind all pairs, in a valid tree; the cursor stays at its pair, or at the ghost |
| `Cursors.PutBehindIs` | src/liballoc/collections/btree/map.rs:2983-3011 | The pair inserted comes, unchanged, right behind the position, or first at the ghost; all other pairs are as they were around it |
| `Cursors.PutAheadIs` | src/liballoc/collections/btree/map.rs:3026-3054 | The pair inserted comes, unchanged, right before the position, or last at the ghost; all other pairs are as they were around it |
| `Cursors.CursorMut.RemoveCurrent` | src/liballoc/collections/btree/map.rs:3102-3116 | Takes out the pair at the cursor, which then is at the next one, or at the ghost; does nothing at the ghost |
| `Cursors.CursorMut.RemoveCurrentAndMoveBack` | src/liballoc/collections/btree/map.rs:3126-3140 | Takes out the pair at the cursor, which then is at the one before, or at the ghost; does nothing at the ghost |
| `Cursors.PeekPrevOffGhost` | src/liballoc/collections/btree/map.rs:2922-2950 | A mutable cursor sees the previous pair exactly if it is not at the ghost or the map has at most one pair |
| `Cursors.PeekPrevFails` | src/liballoc/collections/btree/map.rs:2922-2950 | With two pairs, at the ghost, it sees the first where the last is promised |
| `Cursors.InsertAfterKeepsOrder` | src/liballoc/collections/btree/map.rs:3056-3073 | Inserting behind a cursor keeps the keys ascending exactly if the key lies above that of the pair at the cursor and below that of the next one, where there are such pairs |
| `Cursors.InsertBeforeKeepsOrder` | src/liballoc/collections/btree/map.rs:3075-3092 | Inserting before a cursor keeps the keys ascending exactly if the key lies above that of the pair before and below that of the pair at the cursor, where there are such pairs |
| `Cursors.InsertAfterFails` | src/liballoc/collections/btree/map.rs:3069-3073 | A smaller key goes in behind a greater one without a panic |
| `Heaps.RootIsGreatest` | src/liballoc/collections/binary_heap/mod.rs:978-980 | The first element of a heap is a greatest one |
| `Heaps.BinaryHeap.SiftUp` | src/liballoc/collections/binary_heap/mod.rs:602-623 | From a vector where only the element at `pos` may exceed those above it, makes a heap of the same elements |
| `Heaps.BinaryHeap.SiftDownRange` | src/liballoc/collections/binary_heap/mod.rs:631-666 | From a range where only the element at `pos` may be below those under it, makes a heap of the same elements, changing nothing outside the range |
| `Heaps.BinaryHeap.SiftDownToBottom` | src/liballoc/collections/binary_heap/mod.rs:687-721 | The same by sinking to the bottom without comparing and sifting back up |
| `Heaps.BinaryHeap.Pop` | src/liballoc/collections/binary_heap/mod.rs:501-510 | Takes out the first element, which is a greatest one, and leaves a heap of exactly the others |
| `Heaps.BinaryHeap.Push` | src/liballoc/collections/binary_heap/mod.rs:544-550 | Leaves a heap of the elements and the new one |
| `Heaps.BinaryHeap.Rebuild` | src/liballoc/collections/binary_heap/mod.rs:760-769 | Makes a heap of any vector, with the same elements |
| `Heaps.BinaryHeap.RebuildTail` | src/liballoc/collections/binary_heap/mod.rs:724-758 | Makes a heap of any vector whose front part is one, by whichever strategy the sizes choose |
| `Heaps.BinaryHeap.Append` | src/liballoc/collections/binary_heap/mod.rs:788-798 | Leaves a heap of the elements of both and an empty other heap; the longer one is kept with its order, so heaps with different orders swap them when the other is longer |
| `Heaps.BinaryHeap.IntoSortedVec` | src/liballoc/collections/binary_heap/mod.rs:570-588 | Gives the elements, each no greater than those behind it |
| `Heaps.BinaryHeap.Retain` | src/liballoc/collections/binary_heap/mod.rs:849-877 | Leaves a heap of exactly the elements accepted by a predicate that is asked once for each, in order, and may change its state |
| `Heaps.OnlyNext` | src/liballoc/collections/binary_heap/mod.rs:849-877 | Each element is asked for in the state that the elements before left, and kept exactly if accepted |
| `Heaps.PeekMut.Drop` | src/liballoc/collections/binary_heap/mod.rs:319-331 | After any change of the first element through the view, dropping the view leaves a heap of the changed elements |
| `Heaps.PeekMut.Pop` | src/liballoc/collections/binary_heap/mod.rs:373-384 | After any change, popping through the view takes exactly the changed element out of the heap |
| `Heaps.Run` | src/liballoc/collections/binary_heap/mod.rs:501-550 | Any run of pushes and pops answers as a bag does from which greatest elements are taken |
| `Heaps.AnswersPop` | src/liballoc/collections/binary_heap/mod.rs:501-510 | In such a run, a pop answers a greatest element of the bag and takes it out, or nothing exactly on an empty bag |
| `Heaps.AnswersConcat` | src/liballoc/collections/binary_heap/mod.rs:501-550 | The answers of a run are those of its first part and those of the rest on the bag left by it |
| `Heaps.AnswersConserve` | src/liballoc/collections/binary_heap/mod.rs:501-550 | What was in the heap and was pushed is what was popped and is left |
| `Sets.DifferenceIsMinus` | src/liballoc/collections/btree/set.rs:454-503 | Whichever way of the three is chosen for the difference, what it goes on to give is exactly the elements of the first set without an equivalent in the second, ascending |
| `Sets.AscendingUnique` | src/liballoc/collections/btree/set.rs:454-619 | Ascending sequences with the same elements are the same, so membership says all about a set |
| `Sets.HasMeans` | src/liballoc/collections/btree/set.rs:656-663 | An element has an equivalent in a set exactly if one of the set's elements compares equal to it |
| `Sets.Difference.Next` | src/liballoc/collections/btree/set.rs:1670-1698 | Takes the first element of what is left of the difference |
| `Sets.IntersectionIsMeet` | src/liballoc/collections/btree/set.rs:556-593 | Whichever way is chosen for the intersection, it gives the common elements, ascending; they come from the first set, but from the second if that has at most a sixteenth of the first one's elements and the comparisons of the ends do not decide |
| `Sets.MeetEitherWay` | src/liballoc/collections/btree/set.rs:556-593 | The common elements are the same from either set, up to equivalence |
| `Sets.Intersection.Next` | src/liballoc/collections/btree/set.rs:1774-1795 | Takes the first element of what is left of the intersection |
| `Sets.JoinedIsUnion` | src/liballoc/collections/btree/set.rs:613-619 | The merge gives, ascending, the elements of the first set and those of the second without an equivalent in the first |
| `Sets.ExclusiveIsDifference` | src/liballoc/collections/btree/set.rs:525-534 | The merge without equivalent heads gives, ascending, the elements of either set without an equivalent in the other |
| `Sets.Merger.Nexts` | src/liballoc/collections/btree/merge_iter.rs:54-85 | On elements that are values: hands out the smaller of two heads, or both if equivalent, keeping the other |
| `Sets.Merger.NextOfUnion` | src/liballoc/collections/btree/set.rs:1824-1827 | Takes the first element of what is left of the union |
| `Sets.Merger.NextOfSymmetricDifference` | src/liballoc/collections/btree/set.rs:1729-1736 | Takes the first element of what is left of the symmetric difference |
| `Sets.IsSubset` | src/liballoc/collections/btree/set.rs:734-792 | Says whether every element has an equivalent in the other set, on every branch: by length, by the ends, by search and by stitching |
| `Sets.IsDisjoint` | src/liballoc/collections/btree/set.rs:708-714 | Says whether no element has an equivalent in the other set |
| `Sets.SubsetShorter` | src/liballoc/collections/btree/set.rs:734-744 | A set with more elements than another is no subset of it, which the first branch relies on |

## Findings

Three promises in the comments of the code are not kept by the code. The model follows the code.

| promise | lines | what holds |
|---|---|---|
| `CursorMut::peek_prev` at the ghost gives the last pair | src/liballoc/collections/btree/map.rs:2922-2950 | It gives the first (`Cursors.PeekPrevFails`: any map with two pairs). It gives the previous pair if and only if the cursor is not at the ghost or the map has at most one pair (`Cursors.PeekPrevOffGhost`). `Cursor::peek_prev` keeps the promise (`Cursors.Cursor.PeekPrev`) |
| `CursorMut::insert_after` and `insert_before` panic on a key out of order | src/liballoc/collections/btree/map.rs:3056-3092 | They never check keys (`Cursors.InsertAfterFails`: a smaller key behind a greater one). The pairs stay ascending if and only if the key lies between those of the two pairs it comes to lie between (`Cursors.InsertAfterKeepsOrder`, `Cursors.InsertBeforeKeepsOrder`) |
| `range` panics on crossed bounds | src/liballoc/collections/btree/map.rs:1148-1152, src/liballoc/collections/btree/search.rs:81-124 | It does not check them and yields nothing (`Orders.CrossedRangeIsEmpty`, `Ranges.RangeSearch`) |

## Left out

- Nodes.Node: the arrays of keys and values are one array of pairs, and all slots hold some pair; reading slots that were never written is not modelled beyond the length of the node.
- Roots.Root: the height is kept at the root only. Below it a node is a leaf if it has no buffer of edges, which stands for the height in a node reference.
- Remove.RemoveKvTracking: the callback for an emptied root is a flag that says whether the root is popped at once, or the caller is told to do so.
- Insert.InsertRecursing: the callback for a split root is the one every caller passes, adding a level.
- Maps.BTreeMap: comparators are functions that do not change, and place keys consistently, as the code demands for meaningful results; inconsistent ones are not modelled.
- Drains.DrainFilter: the predicate may carry a state from pair to pair and change values, but it does not panic.
- Sets.Difference: sets are ascending sequences here, and their iterators suffixes of these; the iterators over trees are modelled on their own in `Iters`. The same goes for the other set operations.
- Iters.Iter: only shared iterators. Mutable ones, and those over keys or values alone, walk in the same way.
- Panics, unwinding, the guards against it, forgotten values and failing allocation.
- The capacities of heaps, growing and shrinking their buffers, and draining them.
- Limits of machine integers on the number of pairs or elements. The length of a node is bounded by 11.
- Cloning, hashing, comparing and printing collections, size hints, `try_insert`, recovery of stored keys through sets, and thin wrappers around the operations modelled.
- Code that is commented out: `DedupSortedIter`, building from iterators, extending, and changing the order of a collection.
- Borrow markers, lifetimes, uninitialised memory and layout casts, which have no behaviour of their own.
