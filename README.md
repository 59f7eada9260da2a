# Gaussian-process k-d tree, interpolation tables, kernel plumbing and field descriptions

This project is a Dafny model of four parts of the LSST `afw` library:

- **The k-d tree of the Gaussian-process interpolator** (`KdTree` in
  `src/math/GaussianProcess.cc`). It is an arena tree: row `i` of `data`
  holds point `i`, and row `i` of `_tree` holds `{split dimension, left,
  right, parent}`, with -1 meaning "none". The model covers:
  - building the tree (`_organize`);
  - descent (`_findNode`);
  - the k-nearest-neighbour search (`findNeighbors`, `_lookForNeighbors`);
  - insertion with storage growth (`addPoint`);
  - removal (`remove`, `_count`, `_descend`, `_reassign`, then compaction);
  - the self-check (`testTree`, `_walkUpTree`).

  The class `KdTrees.KdTree` keeps the source's tables as arrays and its
  counters as fields. Its methods are proved against the value-level
  specification in the modules `KdSpec`, `KdSearch`, `KdBuild`, `KdEdits` and
  `KdCheck`.
- **The bookkeeping of the `GaussianProcess` class** in the same file:
  - the four constructors, with normalisation into the box [min, max];
  - `addPoint` with a scalar value and with a row of values;
  - `removePoint`;
  - the three setters;
  - the neighbour selection of `selfInterpolate`;
  - the covariance-matrix assembly, over an arbitrary covariogram.

  The function-value table moves in lockstep with the tree's point rows.
- **`src/math/Interpolate.cc`**:
  - knot recentring;
  - the piecewise-constant interpolator with its mutable search cache, proved to return the step function's value whatever the cache holds;
  - the style tables and name parsing;
  - `makeInterpolate`.
- **The parameter plumbing of the `Kernel` base class** (`src/math/Kernel.cc`):
  - the centre computation;
  - the two constructors;
  - `setSpatialParameters`, which validates before it mutates;
  - the spatial-model evaluation;
  - the base setters and getters.
- **`FieldDescription`** (`include/lsst/afw/table/FieldDescription.h`): order
  and equality by name only, and the print format.

Some conventions:
- Distances are squared distances (see "Left out").
- Sorting, which the source does with `mergeSort` from `GaussianProcessFunctions.h`, is the key sort `Sorting.SortByKey`, proved stable by `Sorting.SortStable`. `GaussianProcessFunctions.h` is not part of this model.

## Model

| member | source | states |
|---|---|---|
| KdSpec.Walk | src/math/GaussianProcess.cc:377-401 | the descent of a point from node w ends at a node of w's subtree whose slot on the point's side is empty; a point that fits the path to w fits below that node |
| KdSpec.RootFits | src/math/GaussianProcess.cc:377-401 | every point fits the empty chain above the root, so by KdSpec.Walk a walk from the root ends at a node below which the point may hang |
| KdSpec.FitsPathChild | src/math/GaussianProcess.cc:377-401 | a point fits the path of a child c of w exactly when it fits below w on c's side |
| KdSpec.SubtreeSide | src/math/GaussianProcess.cc:479-528 | in a valid tree every point of x's left subtree is strictly below x in x's split dimension and every point of its right subtree is at or above it |
| KdSpec.NodeFitsPath | src/math/GaussianProcess.cc:479-528 | every node of a valid tree lies on the correct side of every node of its parent chain |
| KdSpec.SubSplit | src/math/GaussianProcess.cc:637-649 | a subtree is its root, its left subtree and its right subtree, pairwise disjoint |
| KdSpec.ChildSubSmaller | src/math/GaussianProcess.cc:678-687 | a child's subtree is strictly smaller than its parent's, so the post-order re-hanging terminates |
| KdSpec.SubRoot | src/math/GaussianProcess.cc:637-649 | the subtree of the root is the whole tree |
| KdSpec.AttachLeaf | src/math/GaussianProcess.cc:208-234 | hanging a fitting point as a leaf in an empty slot keeps the k-d tree invariant, with the new node added |
| KdSpec.AttachKeepsFits | src/math/GaussianProcess.cc:651-676 | hanging a leaf changes no fitting test at any node already in the tree, so later re-hangings see the same tests |
| KdSpec.ExtendValid | src/math/GaussianProcess.cc:183-206 | appending a row that is not in the tree keeps the tree valid |
| KdSpec.NextDim | src/math/GaussianProcess.cc:180-181 | the split dimension of a new leaf is the next dimension after its parent's, wrapping to 0, and is a valid dimension |
| KdSpec.OneSidedWalk | src/math/GaussianProcess.cc:377-401 | in a valid two-point tree whose root has an empty right slot, the point 2.0 walks to the root itself (the source's descent starts one level lower and gives -1) |
| KdSearch.Dist2 | src/math/GaussianProcess.cc:689-700 | the squared distance is non-negative |
| KdSearch.Dist2Coordinate | src/math/GaussianProcess.cc:433-441 | the squared distance is at least the squared gap in any one coordinate, which is what makes pruning safe |
| KdSearch.Offer | src/math/GaussianProcess.cc:412-426 | offering a candidate keeps the list's shape and length (its effect on the contents is stated by KdSearch.OfferOk) |
| KdSearch.FirstNotCloserIs | src/math/GaussianProcess.cc:415 | the linear scan's stop is the unique position with only smaller distances before it |
| KdSearch.SeedOk | src/math/GaussianProcess.cc:124-130 | the list seeded with the descent's node is right for the set of that one point |
| KdSearch.OfferOk | src/math/GaussianProcess.cc:412-426 | offering a new point keeps the list exactly right (distinct, sorted, true distances, nothing nearer left out of a full list) for the points examined |
| KdSearch.PruneOk | src/math/GaussianProcess.cc:433-441 | adding points that are all farther than the last entry of a full list keeps the list right |
| KdSearch.LeftBranchFar | src/math/GaussianProcess.cc:431-436 | every point of a node's left subtree is at squared distance at least the squared gap v[i] - node[i] when that gap is positive |
| KdSearch.RightBranchFar | src/math/GaussianProcess.cc:438-442 | every point of a node's right subtree is at squared distance at least the squared gap node[i] - v[i] when that gap is positive |
| KdSearch.PruneBranch | src/math/GaussianProcess.cc:433-464 | a branch that the pruning test skips holds no point nearer than the last entry, so the list stays right when the whole branch counts as examined |
| KdSearch.CoveredAll | src/math/GaussianProcess.cc:159-163 | once the three links of the start node are searched, the whole tree has been examined |
| KdSearch.BranchPlan | src/math/GaussianProcess.cc:159-163 | searching through one link of the start node adds a region disjoint from what was examined, and the union after the third link is the whole tree |
| KdSearch.FoundCount | src/math/GaussianProcess.cc:165-168 | a list that is right for D holds min(k, \|D\|) points |
| KdBuild.LinkValid | src/math/GaussianProcess.cc:341-345 | linking the pivot below its parent (or as the root) keeps the tree valid with it added; the other points stay fresh and fit below it on their side |
| KdBuild.LinkLeaf | src/math/GaussianProcess.cc:359-369 | linking the last point of a part below its parent completes the part as a childless leaf, changing only its row, the parent's slot and its path |
| KdBuild.PivotReady | src/math/GaussianProcess.cc:332-356 | once a pivot is linked, the points before it fit in its left slot and those after it in its right slot |
| KdBuild.LeftReady | src/math/GaussianProcess.cc:347-356 | building the right subtree first leaves the points before the pivot ready for its left slot |
| KdBuild.SingleValid | src/math/GaussianProcess.cc:371-373 | a childless root alone is a valid tree |
| KdBuild.StartOn | src/math/GaussianProcess.cc:94-100 | a table of blank rows over all points 0..n-1 is ready to be built |
| KdBuild.PlaceFits | src/math/GaussianProcess.cc:343-345 | a point that fits below w on n's side fits below n once n hangs there |
| KdEdits.SpliceValid | src/math/GaussianProcess.cc:554-608 | cutting the target out of its parent's slot and promoting its child on the chosen side (or the master parent when the target was the root) keeps the rest of the tree valid |
| KdEdits.SplicedPlus | src/math/GaussianProcess.cc:589-618 | the nodes a splice keeps plus the detached subtree on the other side are every node but the target |
| KdEdits.SplicedOneSide | src/math/GaussianProcess.cc:562-588 | with the other side empty, a splice keeps every node but the target |
| KdEdits.DetachedRows | src/math/GaussianProcess.cc:613-615 | a splice leaves the target's row and the child links of the detached subtree unchanged, so that subtree can be re-hung from them |
| KdEdits.SplicePromotes | src/math/GaussianProcess.cc:562-608 | a splice puts the child on `side` into the slot of the target's parent that held the target, with that parent as its own, or makes it the root when the target was the root; no other row changes |
| KdEdits.Unlinked | src/math/GaussianProcess.cc:537-618 | the state after unlinking the target (leaf cut, one side spliced in, or the larger side spliced in and the other re-inserted by `Rehung`) leaves every other node in a valid tree when another node remains, with the points unchanged |
| KdEdits.Rehung | src/math/GaussianProcess.cc:589-618 | splicing the chosen side in and re-inserting the other side in post-order leaves every node but the target in a valid tree; the spliced tree keeps its links and every re-inserted node is hung on its point's side |
| KdEdits.OneSidedSplice | src/math/GaussianProcess.cc:554-588 | with nothing to re-insert and another node left, the splice on the removal side is possible and leaves every other node in a valid tree |
| KdEdits.TwoSidedSplice | src/math/GaussianProcess.cc:589-608 | with a subtree to re-insert, the splice on the removal side is possible and valid, and the left-over subtree lies outside the spliced tree |
| KdEdits.CompactedData | src/math/GaussianProcess.cc:620-632 | compaction removes exactly the target's point: the new point table is the old one without that row |
| KdEdits.CompactValid | src/math/GaussianProcess.cc:620-632 | shifting the rows above a detached target down and decrementing every link and the master parent above it keeps the tree valid over all remaining rows |
| KdEdits.CompactLast | src/math/GaussianProcess.cc:620 | removing the last row renumbers nothing: the tables just lose that row |
| KdCheck.ValidEnds | src/math/GaussianProcess.cc:514-525 | in a valid tree every parent chain ends at the root after as many steps as the node has ancestors |
| KdCheck.ValidChain | src/math/GaussianProcess.cc:479-528 | in a valid tree a node's point fits the whole chain above any of its ancestors, on the side leading to it |
| KdCheck.ValidChecks | src/math/GaussianProcess.cc:251-293 | a valid tree meets the self-check's assumptions and passes it, whatever value the walk reports on failure |
| KdCheck.WalkFromParent | src/math/GaussianProcess.cc:279-288 | the upward walk from the parent of a non-root node of a valid tree reports the root |
| KdCheck.OneRootHasChild | src/math/GaussianProcess.cc:256-263 | with exactly one row without parent, a table of two or more rows has a row with a parent, so the final walk result is defined |
| KdCheck.EndsUnique | src/math/GaussianProcess.cc:514-525 | a parent chain has a single length |
| KdCheck.MisorderedNotValid | src/math/GaussianProcess.cc:493-512 | the two-row table whose left child lies above its parent is not a k-d tree, for any ancestor bookkeeping |
| KdCheck.MisorderedAccepted | src/math/GaussianProcess.cc:479-528 | with failure reported as 0 the self-check accepts that misordered table (its master parent is row 0); with failure -1 it rejects it |
| KdTrees.Distance | src/math/GaussianProcess.cc:689-700 | the loop's sum is the squared distance |
| KdTrees.Pivot | src/math/GaussianProcess.cc:332-339 | the pivot is chosen by the source's rule: with k the start of the run of keys equal to the middle key and l where the scan for the run's end stops, k when it is strictly nearer the middle or the scan reaches the last key, else l; every key before the pivot is strictly smaller and none after it is smaller |
| KdTrees.RunStart | src/math/GaussianProcess.cc:335 | the first position of the run of equal keys holding position m: every key from it to m is equal, and the key before it differs |
| KdTrees.ScanEnd | src/math/GaussianProcess.cc:337 | where the forward scan stops: every key before it from l on is v, and its own key differs unless it is the last position |
| KdTrees.NeighborList.constructor | src/math/GaussianProcess.cc:119-122 | an empty list of the wanted length |
| KdTrees.NeighborList.Clear | src/math/GaussianProcess.cc:124 | every distance slot is -1 |
| KdTrees.NeighborList.First | src/math/GaussianProcess.cc:128-130 | the seed node and its distance take slot 0; one point found |
| KdTrees.NeighborList.MayHold | src/math/GaussianProcess.cc:433-462 | the source's pruning test on the arrays agrees with the value-level test MayHoldCloser |
| KdTrees.NeighborList.Offer | src/math/GaussianProcess.cc:414-426 | the in-place shift leaves the list the value-level Offer computes |
| KdTrees.NeighborList.Consider | src/math/GaussianProcess.cc:412-426 | offering a new point at its distance keeps the list exactly right for the examined points, that point included |
| KdTrees.KdTree.constructor | src/math/GaussianProcess.cc:74-102 | the built tree is valid, holds exactly the given points in order, and room equals the point count; both tables are newly allocated |
| KdTrees.BuildThenAdd | src/math/GaussianProcess.cc:174-236 | a tree built over some points then given one more holds exactly those points plus the new one and is valid: the constructor's tables are the caller's to change |
| KdTrees.KdTree.Organize | src/math/GaussianProcess.cc:295-375 | building the points `use` into slot dir of parent (or as the whole tree) makes them all nodes of a valid tree and changes nothing outside them and the parent's slot |
| KdTrees.KdTree.Divide | src/math/GaussianProcess.cc:306-358 | the several-points branch establishes the same as Organize |
| KdTrees.KdTree.Settle | src/math/GaussianProcess.cc:341-356 | linking the pivot and building its two subtrees establishes the same as Organize |
| KdTrees.KdTree.Single | src/math/GaussianProcess.cc:359-369 | a single point becomes a leaf in the parent's slot and the tree stays valid |
| KdTrees.KdTree.Place | src/math/GaussianProcess.cc:343-345 | the link step writes exactly the rows Linked describes |
| KdTrees.KdTree.Subtrees | src/math/GaussianProcess.cc:347-356 | the points after the pivot go to its right, those before to its left, and all join the valid tree |
| KdTrees.KdTree.BuildSlot | src/math/GaussianProcess.cc:347-356 | an empty part marks the slot empty; otherwise the part is built there |
| KdTrees.KdTree.Split | src/math/GaussianProcess.cc:310-339 | the chosen dimension has the greatest spread; the order is a permutation of the points; the pivot splits them strictly below / at or above |
| KdTrees.KdTree.SortByCoordinate | src/math/GaussianProcess.cc:326-330 | the points ordered by their coordinate: a permutation with ascending keys |
| KdTrees.KdTree.SplitDimension | src/math/GaussianProcess.cc:310-324 | the chosen dimension has maximal spread; ties go to the earlier dimension unless the later one is after the parent's split dimension |
| KdTrees.KdTree.ColumnSpread | src/math/GaussianProcess.cc:311-318 | the loop computes the mean of squares less the square of the mean |
| KdTrees.KdTree.Locate | src/math/GaussianProcess.cc:382-397 | the loop ends where the specification's walk ends, with that node's slot on the point's side empty |
| KdTrees.KdTree.FindNode | src/math/GaussianProcess.cc:377-401 | the corrected descent returns a tree node with an empty slot on v's side below which v fits every ancestor |
| KdTrees.KdTree.FindNodeAsWritten | src/math/GaussianProcess.cc:377-401 | the descent as written returns -1 exactly when the master parent's slot on v's side is empty, else the walk's end |
| KdTrees.KdTree.AddPoint | src/math/GaussianProcess.cc:174-236 | the point is appended as row pts, hung as a leaf in the empty slot on its side of the descent's end node with the next split dimension; pts grows by 1; room grows by roomStep exactly when full; the tree stays valid |
| KdTrees.KdTree.Hang | src/math/GaussianProcess.cc:208-234 | the new row is appended and linked into the parent's slot |
| KdTrees.KdTree.Grow | src/math/GaussianProcess.cc:183-206 | fresh tables roomStep rows larger, every row in use preserved |
| KdTrees.KdTree.AddPointValid | src/math/GaussianProcess.cc:208-234 | the state after insertion satisfies the tree invariant |
| KdTrees.KdTree.Count | src/math/GaussianProcess.cc:637-649 | the counter grows by the number of nodes strictly below `where` |
| KdTrees.KdTree.Sizes | src/math/GaussianProcess.cc:537-550 | nl and nr are the sizes of the left and right subtrees, zero exactly when the slot is empty |
| KdTrees.KdTree.CutLeaf | src/math/GaussianProcess.cc:554-561 | a leaf is cut from its parent's slot and every other node stays in a valid tree |
| KdTrees.KdTree.Promote | src/math/GaussianProcess.cc:562-608 | the child on `side` takes the target's place, as the master parent when the target was the root |
| KdTrees.KdTree.Rehang | src/math/GaussianProcess.cc:589-618 | the new state is exactly `KdEdits.Rehung`: the subtree on `side` spliced into the target's place (in its parent's slot, or as master parent), then the other side re-inserted in post-order; the spliced tree keeps every link and only has empty slots filled; every re-inserted node is hung in the slot its own point selects, with the next split dimension; every node but the target is in a valid tree |
| KdTrees.KdTree.Unlink | src/math/GaussianProcess.cc:537-618 | the new state equals `KdEdits.Unlinked` of the old one: a leaf is cut from its parent; a one-sided node has its subtree spliced into its place; a two-sided node has its larger side (the right one on a tie) spliced in and the other side re-inserted in post-order |
| KdTrees.KdTree.Descend | src/math/GaussianProcess.cc:678-687 | the new state is exactly `KdSpec.Reinserted`: the left subtree, then the right subtree, then the node itself re-inserted (post-order); every one of its nodes is back in a valid tree, hung in the slot its point selects below its new parent; the tree's existing links are kept and no other row changes |
| KdTrees.KdTree.DescendSide | src/math/GaussianProcess.cc:681-682 | the new state is exactly `KdSpec.ReinsertedSide`: the subtree in one slot, when there is one, re-inserted in post-order into the valid tree |
| KdTrees.KdTree.Reassign | src/math/GaussianProcess.cc:651-676 | the new state is exactly `KdSpec.Reinsert`: the detached row is hung as a leaf where the descent of its point ends, with the next split dimension; every link of the tree is kept |
| KdSpec.Reinsert | src/math/GaussianProcess.cc:651-676 | one re-insertion: the row's point walks down from the root and the row is hung in the empty slot where the walk ends, with the next split dimension; the tree stays valid with the row added, keeps its links, and the row is hung on its point's side |
| KdSpec.Reinserted | src/math/GaussianProcess.cc:678-687 | re-inserting a detached subtree in post-order (left, right, node) adds all of it to the valid tree, keeps the tree's links, and leaves each of its nodes hung on its point's side |
| KdSpec.ReinsertedSide | src/math/GaussianProcess.cc:681-682 | re-inserting the subtree in one slot, or nothing when the slot is empty, adds it to the valid tree with the same guarantees |
| KdSpec.ReinsertedSteps | src/math/GaussianProcess.cc:678-687 | the post-order re-insertion is the left side's, then the right side's over the enlarged tree, then the node's own re-insertion, on disjoint node sets |
| KdSpec.AttachHangs | src/math/GaussianProcess.cc:651-676 | hanging a row's own point in the slot its point selects, with the next split dimension, fills one empty slot, keeps every other link and leaves the row hung below that node |
| KdSpec.HungKept | src/math/GaussianProcess.cc:678-687 | later re-hangings, which keep every existing link, keep each node already hung where it was hung |
| KdTrees.KdTree.ShiftRows | src/math/GaussianProcess.cc:620-625 | every row after the target moves up one place |
| KdTrees.KdTree.RenumberRows | src/math/GaussianProcess.cc:626-628 | every link above the target drops by one |
| KdTrees.KdTree.Compact | src/math/GaussianProcess.cc:620-632 | pts drops by one, the tables are the compacted ones, and the tree is valid |
| KdTrees.KdTree.Remove | src/math/GaussianProcess.cc:530-635 | the tree stays valid, pts drops by one, the point table loses row target, and the new tables are exactly `KdEdits.Compacted` of `KdEdits.Unlinked` of the old ones: every link and the master parent above target drop by one |
| KdTrees.KdTree.CountRoots | src/math/GaussianProcess.cc:256-259 | the count is the number of rows without parent |
| KdTrees.KdTree.CountChildren | src/math/GaussianProcess.cc:265-269 | entry p is the number of rows whose parent is p |
| KdTrees.KdTree.WalkUpTree | src/math/GaussianProcess.cc:479-528 | the walk reports the top of the chain when the point fits every row of it, otherwise the failure value |
| KdTrees.KdTree.CheckTree | src/math/GaussianProcess.cc:251-293 | returns 1 exactly when there is one root, no row has more than two children, and every upward walk reports the master parent |
| KdTrees.KdTree.TestTreeAsWritten | src/math/GaussianProcess.cc:251-293 | the check with the source's failure value 0 |
| KdTrees.KdTree.TestTree | src/math/GaussianProcess.cc:251-293 | the check with failure value -1, which by KdCheck.ValidChecks accepts every valid tree and by KdCheck.MisorderedAccepted rejects the misordered one |
| KdTrees.KdTree.LookForNeighbors | src/math/GaussianProcess.cc:403-477 | coming down, the step examines the node's whole subtree; coming up from a child, everything outside that child's subtree; the list stays exactly right |
| KdTrees.KdTree.Examine | src/math/GaussianProcess.cc:412-426 | the node is offered once, not examined before, and the list stays right |
| KdTrees.KdTree.VisitBranch | src/math/GaussianProcess.cc:428-443 | a branch is searched or, when pruned, provably holds nothing nearer; either way it counts as examined |
| KdTrees.KdTree.Climb | src/math/GaussianProcess.cc:444-474 | the other branch and everything above the node get examined |
| KdTrees.KdTree.PruneKeepsSearch | src/math/GaussianProcess.cc:433-441 | a skipped branch leaves the search state right |
| KdTrees.KdTree.DownRegions | src/math/GaussianProcess.cc:428-443 | examining a node and both its branches examines its subtree |
| KdTrees.KdTree.UpRegions | src/math/GaussianProcess.cc:444-474 | coming up from a child examines everything outside that child's subtree |
| KdTrees.KdTree.Seed | src/math/GaussianProcess.cc:119-130 | the list starts with the descent's node at its distance, every other slot -1 |
| KdTrees.KdTree.LinkDistance | src/math/GaussianProcess.cc:133-152 | the distance to a link's point, -1 for a missing link |
| KdTrees.KdTree.BranchOrder | src/math/GaussianProcess.cc:133-154 | the three link columns, each exactly once, in ascending order of the squared distance from v to the linked node (-1 for a missing link), ties in the order left, right, parent |
| KdTrees.KdTree.SlotKeysAre | src/math/GaussianProcess.cc:133-154 | the keys handed to the slot sort are the link distances of start, slot by slot |
| KdTrees.KdTree.Branch | src/math/GaussianProcess.cc:159-163 | searching through one link adds that link's region; after the third the whole tree |
| KdTrees.KdTree.Sweep | src/math/GaussianProcess.cc:159-163 | after all three links every point has been examined |
| KdTrees.KdTree.FindNeighbors | src/math/GaussianProcess.cc:104-172 | the first min(k, pts) slots are distinct points in ascending distance with their distances, no unlisted point is nearer than the last slot of a full list, unused distance slots hold -1 |
| Sorting.InsertSorted | src/math/GaussianProcess.cc:154 | inserting into a key-sorted sequence keeps it sorted |
| Sorting.InsertCounts | src/math/GaussianProcess.cc:154 | insertion adds exactly the new pair |
| Sorting.SortByKey | src/math/GaussianProcess.cc:330 | the result is sorted by key, is a permutation of the input (same multiset) and has its length |
| Sorting.SortStable | src/math/GaussianProcess.cc:330 | the sort is stable: when payloads increase along the input, the output is ordered by key and then by payload |
| Sorting.InsertAfterEqual | src/math/GaussianProcess.cc:330 | a pair whose payload exceeds every other lands after every pair of equal key |
| Sorting.SortKeepsPairs | src/math/GaussianProcess.cc:330 | sorting keeps exactly the input's pairs |
| Sorting.SortDistinct | src/math/GaussianProcess.cc:330 | sorting keeps payloads distinct |
| Sorting.SlotOrder | src/math/GaussianProcess.cc:133-154 | the slots 1, 2, 3 once each, by ascending key, ties in slot order |
| Sorting.SlotKeys | src/math/GaussianProcess.cc:154 | every sorted slot pair carries its own slot's key, and the pairs come out by key and then by slot |
| GaussianProcesses.Scaled | src/math/GaussianProcess.cc:789 | the normalised point maps back to the original under x = r (max - min) + min |
| GaussianProcesses.ScaledInjective | src/math/GaussianProcess.cc:786-791 | normalisation is one to one |
| GaussianProcesses.ScaledInUnitCube | src/math/GaussianProcess.cc:789 | a point inside the box lands in the unit cube |
| GaussianProcesses.ScaleRows | src/math/GaussianProcess.cc:786-791 | every row normalised |
| GaussianProcesses.Dist2Self | src/math/GaussianProcess.cc:1155 | a point is at distance 0 from itself |
| GaussianProcesses.FirstIsAtQuery | src/math/GaussianProcess.cc:1149-1153 | the first entry of a right list for the query point is at distance 0 from it |
| GaussianProcesses.DropSelf | src/math/GaussianProcess.cc:1155-1163 | dropping the query point from the head of its list gives a right list for the other points |
| GaussianProcesses.CovarianceSymmetric | src/math/GaussianProcess.cc:1169-1177 | the covariance matrix is symmetric for any covariogram and its diagonal is c(xi, xi) + lambda |
| GaussianProcesses.Assemble | src/math/GaussianProcess.cc:1169-1177 | the loops fill every entry of the matrix with CovarianceEntry and the test vector with c(x, xi) |
| GaussianProcesses.FillRow | src/math/GaussianProcess.cc:1171-1176 | one pass fills row i from the diagonal rightwards and mirrors it |
| GaussianProcesses.GaussianProcess.FromValues | src/math/GaussianProcess.cc:709-751 | valid state, the given points, one value per point, lambda 1e-5, kriging parameter 1, no normalisation; the tree, its tables and the value table are newly allocated |
| GaussianProcesses.GaussianProcess.FromScaledValues | src/math/GaussianProcess.cc:754-800 | as above with every point normalised into [mn, mx]; the tree, its tables and the value table are newly allocated |
| GaussianProcesses.GaussianProcess.FromRows | src/math/GaussianProcess.cc:803-846 | valid state, the given points and value rows, nFunctions the row width; the tree, its tables and the value table are newly allocated |
| GaussianProcesses.GaussianProcess.FromScaledRows | src/math/GaussianProcess.cc:849-898 | as above with normalised points; the tree, its tables and the value table are newly allocated |
| GaussianProcesses.GaussianProcess.Position | src/math/GaussianProcess.cc:1712-1718 | the stored point has the process's dimension |
| GaussianProcesses.GaussianProcess.Prepare | src/math/GaussianProcess.cc:1709-1718 | the loop builds exactly Position(vin) |
| GaussianProcesses.GaussianProcess.AddPoint | src/math/GaussianProcess.cc:1698-1741 | with one function per point, one point and its value are appended in lockstep; otherwise nothing changes; the value table and the tree's two tables are each kept or replaced by a newly allocated one |
| GaussianProcesses.GaussianProcess.AddPointRow | src/math/GaussianProcess.cc:1743-1781 | the point and its value row are appended in lockstep; the value table and the tree's two tables are each kept or replaced by a newly allocated one |
| GaussianProcesses.BuildProcessThenAdd | src/math/GaussianProcess.cc:1698-1741 | a process built over some points then given one more holds exactly those points and values plus the new pair, and is valid |
| GaussianProcesses.AddTwo | src/math/GaussianProcess.cc:1698-1741 | two insertions in a row append both points and both values in order, whatever the first one reallocated |
| GaussianProcesses.GaussianProcess.Store | src/math/GaussianProcess.cc:1720-1738 | both tables grow together; room grows by roomStep exactly when full; the value table and the tree's two tables are each kept or replaced by a newly allocated one |
| GaussianProcesses.GaussianProcess.Insert | src/math/GaussianProcess.cc:1736 | the tree gains v as its last point row and stays valid; room grows by roomStep exactly when full; the tree's two tables are each kept or replaced by a newly allocated one |
| GaussianProcesses.GaussianProcess.Reserve | src/math/GaussianProcess.cc:1720-1734 | the value row lands at index pts after an optional growth |
| GaussianProcesses.GaussianProcess.GrowValues | src/math/GaussianProcess.cc:1720-1733 | a larger value table keeps every row in use |
| GaussianProcesses.GaussianProcess.RemovePoint | src/math/GaussianProcess.cc:1783-1796 | the corrected removal drops row dex from both tables and keeps the process valid |
| GaussianProcesses.GaussianProcess.Delete | src/math/GaussianProcess.cc:1788 | the tree loses point row dex and stays valid with one point fewer |
| GaussianProcesses.GaussianProcess.RemovePointAsWritten | src/math/GaussianProcess.cc:1783-1796 | the removal as written has the same effect only when a row exists past the last one in use |
| GaussianProcesses.GaussianProcess.ShiftDown | src/math/GaussianProcess.cc:1790-1794 | the value rows above `from` move down one place |
| GaussianProcesses.GaussianProcess.SetKrigingParameter | src/math/GaussianProcess.cc:1798-1803 | sets the kriging parameter only |
| GaussianProcesses.GaussianProcess.SetCovariogram | src/math/GaussianProcess.cc:1805-1808 | sets the covariogram only |
| GaussianProcesses.GaussianProcess.SetLambda | src/math/GaussianProcess.cc:1810-1815 | sets lambda only |
| GaussianProcesses.GaussianProcess.SelfNeighbors | src/math/GaussianProcess.cc:1111-1163 | on success, the k nearest points other than dex by ascending distance; failure only when another point sits at distance 0 from dex |
| GaussianProcesses.GaussianProcess.Covariance | src/math/GaussianProcess.cc:1169-1177 | the covariance matrix of the neighbours and their covariances with the query point |
| Interpolation.Recenter | src/math/Interpolate.cc:44-72 | refuses mismatched lengths and empty input, returns one point unchanged, and otherwise yields len+1 knots at the midpoints with the end values |
| Interpolation.RecenteredKnotsBracket | src/math/Interpolate.cc:58-69 | recentring sorted knots keeps them sorted and brackets each original point between its two knots |
| Interpolation.FirstAboveSplits | src/math/Interpolate.cc:114 | the upper-bound position splits sorted knots into those at most v and those above |
| Interpolation.FirstAboveUnique | src/math/Interpolate.cc:114-119 | that split position is unique |
| Interpolation.ConstantValueCases | src/math/Interpolate.cc:124-132 | the step function is y[0] left of the first knot, the last value at or past the last knot, y[i] inside [x[i], x[i+1]) |
| Interpolation.UpperBound | src/math/Interpolate.cc:114-119 | the bisection returns the split position of a sub-range |
| Interpolation.InterpolateConstant.constructor | src/math/Interpolate.cc:85-89 | the interpolator holds the knots, with the cache at the first knot |
| Interpolation.InterpolateConstant.Interpolate | src/math/Interpolate.cc:94-133 | whatever the cache holds, the result is the step function's value, and the cache stays a valid position |
| Interpolation.InterpolateConstant.InterpolateAll | src/math/Interpolate.cc:294-301 | entry i of the output is the step function at xs[i] |
| Interpolation.StyleToGslInterpType | src/math/Interpolate.cc:139-166 | refuses exactly CONSTANT, UNKNOWN (invalid parameter) and NUM_STYLES (logic error); both spline styles map to cspline |
| Interpolation.StringToInterpStyle | src/math/Interpolate.cc:256-272 | the seven listed names map to their styles; any other string is refused |
| Interpolation.StringToInterpStyleRoundTrip | src/math/Interpolate.cc:258-271 | every real style parses back from its name and only real styles are produced |
| Interpolation.LookupMaxInterpStyle | src/math/Interpolate.cc:274-292 | n < 1 refused; 1 constant, 2 linear, 3-4 cubic spline, more Akima |
| Interpolation.LookupMinInterpPoints | src/math/Interpolate.cc:313-333 | 1, 2, 3, 3, 3, 5, 5 points for the real styles, out of range otherwise |
| Interpolation.MaxStyleFitsPointCount | src/math/Interpolate.cc:274-333 | the most capable style for n points never needs more than n points |
| Interpolation.MakeInterpolate | src/math/Interpolate.cc:342-350 | the constant interpolator exactly for CONSTANT, over recentred knots; other styles go to the `InterpolateGsl` constructor (lines 187-216) and are refused with the style table's error when the spline library has no type, with OutOfRangeError when the library allocates no spline, with RuntimeError when its initialisation over the knots fails, and otherwise go to the library; the constant interpolator is newly allocated and ready to interpolate, also over a single knot |
| Interpolation.OnePointConstant | src/math/Interpolate.cc:103-106 | the constant interpolator built over the single knot (1.0, 7.0) answers 7.0 at 3.0: one knot gives its value everywhere |
| Kernels.Center | src/math/Kernel.cc:38-39 | the centre index truncates (size - 1) / 2 toward zero: inside the axis for a non-empty one |
| Kernels.CenterRounding | src/math/Kernel.cc:69-70 | the truncating centre equals Euclidean (size - 1) / 2 for non-empty axes and odd sizes, and is one more for even non-positive sizes, an empty axis among them |
| Kernels.Kernel.Init | src/math/Kernel.cc:34-41 | the members every constructor initialises, with the centre from Center |
| Kernels.Kernel.FromSpatialFunction | src/math/Kernel.cc:29-54 | no functions for the null spatial function; otherwise refused without parameters, else nKernelParams copies |
| Kernels.Kernel.FromList | src/math/Kernel.cc:61-77 | nKernelParams is the list length and the functions are the list, in order |
| Kernels.Kernel.SetSpatialParameters | src/math/Kernel.cc:109-128 | a wrong shape is refused and changes nothing; otherwise function ii takes params[ii] |
| Kernels.SourceChecksAdmitMissingFunctions | src/math/Kernel.cc:109-127 | the source's two checks pass for a null-function kernel with two parameters, whose function list is empty |
| Kernels.Kernel.ComputeKernelParametersFromSpatialModel | src/math/Kernel.cc:137-143 | entry i is f_i(x, y); later entries unchanged |
| Kernels.Kernel.SetKernelParametersFromSpatialModel | src/math/Kernel.cc:202-207 | the setter is called as (i, f_i(x, y)) in index order until the first refusal, which propagates |
| Kernels.BaseSetKernelParameter | src/math/Kernel.cc:190-192 | always refuses |
| Kernels.BaseGetKernelParameters | src/math/Kernel.cc:152-154 | an empty vector |
| FieldDescriptions.Make | include/lsst/afw/table/FieldDescription.h:30-33 | the four fields are stored verbatim |
| FieldDescriptions.Format | include/lsst/afw/table/FieldDescription.h:26-28 | the text starts with the name and ": ", ends with ")", and has the length of name, type and doc plus five |
| FieldDescriptions.FormatIgnoresUnits | include/lsst/afw/table/FieldDescription.h:26-28 | the units are not printed |
| FieldDescriptions.LexLessIrreflexive | include/lsst/afw/table/FieldDescription.h:16 | no string is below itself |
| FieldDescriptions.LexLessTrichotomy | include/lsst/afw/table/FieldDescription.h:16 | two strings are equal or one is below the other |
| FieldDescriptions.LexLessAsymmetric | include/lsst/afw/table/FieldDescription.h:16 | the string order is asymmetric |
| FieldDescriptions.LexLessTransitive | include/lsst/afw/table/FieldDescription.h:16 | the string order is transitive |
| FieldDescriptions.ExactlyOneOrdering | include/lsst/afw/table/FieldDescription.h:16-20 | exactly one of a < b, b < a, a == b holds |
| FieldDescriptions.LessIsStrictOrder | include/lsst/afw/table/FieldDescription.h:16 | < is irreflexive and transitive |
| FieldDescriptions.EqualityByNameOnly | include/lsst/afw/table/FieldDescription.h:18-24 | == holds exactly when the names agree, whatever doc, units and type are; != is its negation |

## Left out

- Square roots: the tree stores and compares squared distances. The source takes `sqrt` in `_distance` and compares the raw coordinate gap with that root when pruning. For a positive gap, gap <= sqrt(D) is the same test as gap * gap <= D. For a gap that is not positive, both versions pass. Distances returned by `findNeighbors` are therefore the squares of the source's.
- Floating point: coordinates and values are reals. Rounding, NaN and infinity are not modelled.
- GaussianProcessFunctions.h is not part of this model. Its `mergeSort` is taken to be a stable sort by key (`Sorting.SortByKey`). If the real sort breaks ties differently, tied coordinates may be ordered differently before the pivot is chosen, and tied branch distances may be searched in another order.
- KdTrees.KdTree.constructor: requires at least two points. With one point, `_organize` reads the split dimension of row -1.
- KdTrees.KdTree.Remove: requires at least two points. Removing a lone root reads row -1 of the tree.
- KdTrees.KdTree.Seed: uses the corrected descent FindNode (see Findings), so `findNeighbors`, and `selfInterpolate` through it, never start from row -1. The source's `_findNode` gives -1 when the master parent's slot on v's side is empty, and `findNeighbors` then reads `data[-1]` and `_tree[-1]`.
- KdTrees.KdTree.AddPoint: uses the corrected descent FindNode (see Findings). The occupied-slot warning branch is dead there, because the slot is proved empty. The printed warnings are not modelled.
- KdTrees.KdTree.CountChildren: skips a row without parent. The source increments `isparent[-1]` for it, a write outside the array.
- KdTrees.KdTree.TestTree: requires the table to be linked within range (`WellLinked`) and its parent chains to end (`Chains`), so that the recursive walk terminates. It also requires at least two rows, so the source's uninitialised `output` after the loop is never read.
- KdTrees.KdTree.Grow: rows of freshly allocated tree storage hold {0, -1, -1, -1}. The source leaves them uninitialised. Each such row is written before it is read.
- GaussianProcesses.Box: the normalising constructors and `addPoint` require max != min in every dimension. The source would divide by zero there.
- GaussianProcesses.GaussianProcess.GrowValues: the value rows past `pts` in a grown table are empty sequences, not zero-filled rows of width nFunctions.
- GaussianProcesses.GaussianProcess.SelfNeighbors: requires k < pts. Its failure condition is stated as another point at distance 0 from dex, rather than as a specific point being listed first. The `exit(1)` of the source becomes an error result, and the warning printed before it is left out.
- Covariograms are arbitrary functions of two points. Their formulas (`exp`, `asin`, `sqrt`) are left out. So is the base `Covariogram::operator()`, which exits the process.
- Gaussian-process numerics are left out: the LDLT factorisation and solves, mean and variance, `interpolate`, `batchInterpolate`, and the rest of `selfInterpolate` after the covariance assembly. They are floating-point work in a foreign linear-algebra library.
- The timer (`::time`) and all printing are left out, including the hyper-parameter explanation, the kernel's `toString` and `computeNewImage`, and the progress line of the array `interpolate`.
- Interpolation.MakeInterpolate: requires sorted knots for CONSTANT. The source builds the constant interpolator from unsorted knots too, and its lookups then assume an order that is not there. Whether the spline library allocates and initialises a spline (it refuses too few points or unordered knots, for instance) is a parameter of the model, not derived from the knots. The `std::bad_alloc` thrown when the library's accelerator cannot be allocated is left out with memory exhaustion.
- `Interpolate.h` is not part of this model. The codes of the styles are taken as UNKNOWN = -1, CONSTANT .. AKIMA_SPLINE_PERIODIC = 0 .. 6 in declaration order, and NUM_STYLES = 7.
- FieldDescriptions.Format: lengths count characters; the source's `std::string` counts bytes, which differ for text outside ASCII.
- `InterpolateGsl` is represented only by the style and knots handed to the spline library. The library's own interpolation and the quadratic extrapolation are left out, because they are floating-point calls into GSL.
- Spatial functions are opaque functions of (x, y) with a parameter vector. Their concrete classes are not part of this model.
- `Kernel.h` is not part of this model. The spatial-parameter count that `getNSpatialParameters` returns is taken as 0 for a kernel without spatial functions, and otherwise as the length of the first function's parameter list.

## Findings

| source | as written | input that shows it | evidently intended | confidence | as-written member | corrected member |
|---|---|---|---|---|---|---|
| src/math/GaussianProcess.cc:377-401 | `_findNode` starts its walk at the master parent's child on v's side, so it returns -1 when that slot is empty; `addPoint` then indexes row -1, and so does `findNeighbors` (lines 126-133), which `selfInterpolate` calls | a tree of two 1-d points where the root (1.0) has only a left child (0.0); adding 2.0, or searching the neighbours of 2.0 | return the master parent itself when its slot is empty, so the new point hangs there | not executed | KdSpec.OneSidedWalk, KdTrees.KdTree.FindNodeAsWritten | KdTrees.KdTree.FindNode |
| src/math/GaussianProcess.cc:479-528 | `_walkUpTree` reports failure as 0, which is also the index of a master parent in row 0, so `testTree` accepts a misordered tree rooted at row 0 | two 1-d rows: row 0 at 1.0 is the root and row 1 at 5.0 is its left child | a failure value no row can have, so every ordering violation is rejected | not executed | KdCheck.MisorderedAccepted, KdTrees.KdTree.TestTreeAsWritten | KdTrees.KdTree.TestTree |
| src/math/Kernel.cc:109-127 | `setSpatialParameters` checks the shape of `params` against `nKernelParams` and the spatial parameter count but not the number of spatial functions, then sets functions 0..nKernelParams-1 | a kernel built with the null spatial function and two kernel parameters, given `[[], []]` | refuse the call when the kernel has fewer spatial functions than kernel parameters | not executed | Kernels.SourceChecksAdmitMissingFunctions | Kernels.Kernel.SetSpatialParameters |
| src/math/GaussianProcess.cc:1783-1796 | `removePoint` shifts value rows for i from dex to _pts-1, reading row _pts, one past the rows in use; right after construction room == pts, so that row does not exist | any process built by a constructor, removing any point before it has grown | shift rows dex+1 .. pts-1 only | not executed | GaussianProcesses.GaussianProcess.RemovePointAsWritten | GaussianProcesses.GaussianProcess.RemovePoint |
