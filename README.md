# ies core, modelled in Dafny

This project models the core of **ies**, a C++ utility library, and proves
properties of that model. Its centrepiece is `ies::StringTree`: a tree of
globally unique string names. The tree keeps two indexes in lockstep. The node
map sends each name to its level, its parent's name and its ordered set of
child names. The level map sends each level to the set of names at that level.

The StringTree model is built in layers:

- **State.** `StringTreeState` holds the state as a value `Tree(root, nodes, levels)`. Its invariant `Wellformed` ties the two maps together:
  - the root is alone at level 0 and has no parent;
  - parents and children name each other;
  - a child sits one level below its parent;
  - every node is in the bucket of its level;
  - levels are numbered 0 .. max without gaps.
- **Operations.** One module per operation defines it as a function on that value:
  - creating a child;
  - removing a node with its subtree, then pruning levels left empty;
  - renaming;
  - removing a level;
  - copying a subtree.
- **Text.** `StringTreeText` models the canonical serialiser `ToString` and the spec constructor `StringTree(root, spec)`. `StringTreeRoundTrip` proves that the spec constructor reads `ToString`'s text back as the same tree. `StringTreeSpecOrder` proves that the groups may come in any creation order.
- **Diff.** `StringTreeDiff` models `DiffStringTree` and characterises its two result sets exactly.
- **Examples.** `StringTreeExamples` works the header's two drawn trees through the model: the context form of `GetNodesByLevel`, and `RemoveLevel(2)`. `StringTreeSpecErrors` shows specs the spec constructor refuses: a group of one name, such as "{x}" or "{a, }", visits its children over `IndexRange{1, 1}`, which may not be empty.
- **Class.** `StringTreeObject.StringTree` is the mutable object. It has the fields `root`, `nodes` and `levels`. Its methods run the source's loops and carry `modifies` clauses. Each method's postcondition ties the new state to the value model:
  - the erase loop and the level-prune loop of `RemoveNode`;
  - the re-parent loop of `RenameNode`;
  - the rename loop of `RenameNodes`;
  - the append loops of `ToString`.

The rest of the library is modelled alongside:

- **Ranges.** `IntegralRange` is the half-open range with its empty-range policy and iterators. `IntegralRangeList` is a sorted list of non-overlapping ranges. `IntRangeUtil` holds `FindOverlappingRange`.
- **Strings.**
  - the tokenisers `SplitString` and `SplitStringView`, with and without empty tokens;
  - `DamerauLevenshtein`, a distance table proved equal to a recursive edit distance;
  - `RecursiveReplace`; `RecursiveReplaceRuns` proves what it does with "//" on texts of letters and runs of slashes, the header's example among them.
- **Containers.**
  - the reverse binary searches of `ReverseEqualRange`;
  - `MapApply` and `EraseIf`;
  - the addition-ordered hash set and map;
  - the sliding-window iterators `AdjacentArrayRange` and `AdjacentVectorRange`.
- **Encoders and formatters.**
  - `ToBigEndian` and `ToLittleEndian`;
  - the hex dump of `Byte.cpp`;
  - `FormatString`;
  - the runtime name table of `SmartEnum`;
  - the compile-time powers `CalculateIntegerPow`, `LookupIntegerPow`, `CalculateIntegerPower` and `FastIntegerPow`, with uint64 and `int` wrap-around written out.

Error handling:

- A C++ exception becomes an error value: `Result`, `Option` or `Outcome` in `Wrappers`.
- A failed `static_assert` becomes an `Err` of a compile-time function.

Where a doc comment and the code disagree, the model follows the code:

- **`DiffStringTree`.** StringTree.hpp:241 says `UpdatedNodes` also holds common nodes whose subtree changed. The code reports only nodes of `after` that are not at the same place in `before`. The `DiffSimilar` test (StringTreeTest.cpp:203-213) agrees with the code.
- **`RecursiveReplace`.** RecursiveReplace.hpp:10 says occurrences are replaced "until no occurrence". The loop only searches forward from the last replacement, so an occurrence can be left behind. See "## Findings".

The source cells below are paths relative to the repository root. Names are
qualified as `Module.Member` or `Module.Class.Member`.

## Model

| member | source | states |
|---|---|---|
| StringTreeState.NewTree | src/ies/Common/StringTree.cpp:25-35 | an empty root name is refused; any other name gives a well-formed tree holding only the root |
| StringTreeState.SingletonWellformed | src/ies/Common/StringTree.cpp:33-34 | the root alone at level 0, with no parent and no children, satisfies every invariant of the node and level maps |
| StringTreeState.GetLevel | src/ies/Common/StringTree.cpp:212-219 | succeeds iff the node exists, and then gives its stored level |
| StringTreeState.GetChildNodes | src/ies/Common/StringTree.cpp:220-227 | succeeds iff the node exists, and then gives its stored child set |
| StringTreeState.GetParentNode | src/ies/Common/StringTree.cpp:228-239 | the root has no parent; any other name succeeds iff it is a node |
| StringTreeState.ParentNodeFacts | src/ies/Common/StringTree.cpp:228-239 | in a well-formed tree every non-root node's parent exists, lists it as a child, and sits one level above it |
| StringTreeState.GetMaxLevel | src/ies/Common/StringTree.cpp:240-250 | the largest key of the level map, which is one less than the number of levels and bounds every level |
| StringTreeState.LevelBounds | src/ies/Common/StringTree.cpp:240-250 | every node's level lies between 0 and GetMaxLevel() |
| StringTreeState.ChildFacts | src/ies/Common/StringTree.cpp:99-103 | every child is a node other than the root, names its parent back, and sits one level below it |
| StringTreeState.LevelZeroIsRoot | src/ies/Common/StringTree.cpp:25-35 | a node is at level 0 iff it is the root |
| StringTreeState.GetNodesByLevel | src/ies/Common/StringTree.cpp:252-265 | succeeds iff the level is between 0 and GetMaxLevel(), and then gives exactly the nodes whose level it is |
| StringTreeState.GetAncestor | src/ies/Common/StringTree.cpp:415-427 | a negative distance is an invalid range; distance 0 is the node itself; up to the node's level it reaches a node that many levels higher; beyond it the walk asks the root for its parent and fails |
| StringTreeState.GetSubtreeNodes | src/ies/Common/StringTree.cpp:321-340 | succeeds iff the node exists, and then holds the node and only nodes of the tree |
| StringTreeState.SubtreeNodesInTree | src/ies/Common/StringTree.cpp:321-340 | every subtree member sits at or below the node's level, and only the node itself at its level |
| StringTreeState.SubtreeClosed | src/ies/Common/StringTree.cpp:330-336 | the children of a subtree member are subtree members |
| StringTreeState.SubtreeParent | src/ies/Common/StringTree.cpp:321-340 | every subtree member other than the node has its parent in the subtree |
| StringTreeState.AncestorIffSubtree | src/ies/Common/StringTree.cpp:321-340 | m is in n's subtree iff walking up from m by the level difference reaches n |
| StringTreeState.AncestorCompose | src/ies/Common/StringTree.cpp:415-427 | walking up d1 then d2 steps is walking up d1 + d2 |
| StringTreeState.DescendantOfMember | src/ies/Common/StringTree.cpp:321-340 | a descendant of a subtree member is itself a subtree member |
| StringTreeState.SubtreeOfRoot | src/ies/Common/StringTree.cpp:321-340 | the root's subtree is the whole tree |
| StringTreeState.GetLeafNodes | src/ies/Common/StringTree.cpp:295-320 | succeeds iff the node exists |
| StringTreeState.LeafNodesAreChildlessSubtreeNodes | src/ies/Common/StringTree.cpp:295-320 | the leaves collected below a node are exactly the childless members of its subtree |
| StringTreeState.GetContextNodesByLevel | src/ies/Common/StringTree.cpp:266-275 | a context that is not a node is refused; what it returns for a node is stated in full by StringTreeState.ContextNodesByLevel |
| StringTreeState.ContextAtOrAbove | src/ies/Common/StringTree.cpp:276-281 | at or above the context's level: a negative level fails at the root; otherwise the result is the single ancestor at that level, whose subtree holds the context |
| StringTreeState.ContextBelow | src/ies/Common/StringTree.cpp:283-292 | below the context's level: up to GetMaxLevel() the result is the context's descendants at that level; past it the level lookup fails |
| StringTreeState.ContextNodesByLevel | src/ies/Common/StringTree.cpp:266-294 | the four cases of the context overload together: negative level, ancestor, descendants, missing level |
| StringTreeState.NodesByLevelFromRoot | src/ies/Common/StringTree.cpp:252-294 | with the root as context the overload agrees with the plain GetNodesByLevel, or both fail |
| StringTreeEdit.CreateChild | src/ies/Common/StringTree.cpp:79-104 | an empty child, a missing parent and an existing child are refused, in that order; it succeeds for every other input |
| StringTreeEdit.CreateChildEffect | src/ies/Common/StringTree.cpp:99-103 | the new child is a childless node one level below its parent, the parent gains exactly that child, one level bucket gains it, and nothing else changes |
| StringTreeEdit.CreateChildWellformed | src/ies/Common/StringTree.cpp:79-104 | creating a child keeps a tree well formed |
| StringTreeEdit.PruneFacts | src/ies/Common/StringTree.cpp:142-153 | when empty buckets are only ever followed by empty ones, shrinking from the bottom keeps a non-empty prefix of levels unchanged and drops only empty levels |
| StringTreeEdit.PruneLevels | src/ies/Common/StringTree.cpp:142-153 | after the shrink loop the level keys are 0 .. size-1, every kept bucket is unchanged and non-empty, and no non-empty bucket is lost |
| StringTreeEdit.RemoveNode | src/ies/Common/StringTree.cpp:106-154 | a missing node leaves the tree unchanged; removing the root is refused; every other removal succeeds |
| StringTreeEdit.RemoveNodeEffect | src/ies/Common/StringTree.cpp:120-153 | the node's whole subtree leaves the node map, the parent loses it as a child, every other node is unchanged, and the level map is the old one minus the subtree with trailing empty levels dropped |
| StringTreeEdit.RemovedLevels | src/ies/Common/StringTree.cpp:125-153 | every level kept is an old level minus the subtree, and every level that still has a node is kept |
| StringTreeEdit.RemoveNodeWellformed | src/ies/Common/StringTree.cpp:106-154 | removing a node keeps a tree well formed |
| StringTreeRename.Renamed | src/ies/Common/StringTree.cpp:171-192 | a name after a rename is either the new name or unchanged, and it is the new name exactly for the old name and the new name itself |
| StringTreeRename.RenamedSetIsImage | src/ies/Common/StringTree.cpp:179-186 | renaming inside a child set or level bucket is the image of the set under the rename |
| StringTreeRename.RenameAsWritten | src/ies/Common/StringTree.cpp:156-201 | RenameNode as written refuses an unknown old name, then an existing new name, and nothing else |
| StringTreeRename.Rename | src/ies/Common/StringTree.cpp:156-201 | the corrected RenameNode refuses an unknown old name, an existing new name, and the empty name; whatever it accepts, the as-written one does with the same result |
| StringTreeRename.ReparentAll | src/ies/Common/StringTree.cpp:189-192 | when every child exists, the loop over the children sets exactly their parents to the new name and changes no other entry |
| StringTreeRename.RenameNodeAsWrittenWellformed | src/ies/Common/StringTree.cpp:156-201 | on a well-formed tree the step-by-step rename, with its lookups that may throw, ends as RenameAsWritten says: the renamed tree, or the unchanged tree and the error |
| StringTreeRename.RenameRelabels | src/ies/Common/StringTree.cpp:171-192 | a successful rename replaces every mention of the old name, as root, node key, parent, child or bucket member, by the new name and changes nothing else |
| StringTreeRename.RelabelledWellformed | src/ies/Common/StringTree.cpp:171-192 | relabelling by a fresh, non-empty name keeps the tree well formed |
| StringTreeRename.RenameWellformed | src/ies/Common/StringTree.cpp:156-201 | the corrected rename keeps the tree well formed |
| StringTreeRename.RenameToNullName | src/ies/Common/StringTree.cpp:166-192 | as written, renaming a node to "" is accepted, the tree is no longer well formed, and each former child reports "" as its parent |
| StringTreeRename.RenameBack | src/ies/Common/StringTree.cpp:156-201 | renaming from a to b and then b to a gives back the original tree |
| StringTreeRename.RenameAll | src/ies/Common/StringTree.cpp:202-211 | RenameNodes, with the corrected rename, always leaves a well-formed tree |
| StringTreeRename.RenameAllAppend | src/ies/Common/StringTree.cpp:206-209 | renaming by a + b is renaming by a, then, if that passed, by b |
| StringTreeRename.RenameAllStops | src/ies/Common/StringTree.cpp:206-209 | a failing RenameNodes stops at some rename i: the renames before it all passed and produced the final tree, and rename i fails with the reported error |
| StringTreeRename.Undo | src/ies/Common/StringTree.cpp:202-211 | the undo list has the same length, in reverse order, with each pair swapped |
| StringTreeRename.RenameAllUndo | src/ies/Common/StringTree.cpp:202-211 | when RenameNodes passes, renaming by its undo list gives back the original tree |
| StringTreeRename.RenameAllAsWrittenAgrees | src/ies/Common/StringTree.cpp:202-211 | unless a rename to "" is met, the as-written RenameNodes does exactly what the corrected one does |
| StringTreeRename.RenameNodesToNullName | src/ies/Common/StringTree.cpp:166-192 | as written, RenameNodes({{b, ""}}) passes and leaves a malformed tree; corrected, it fails and leaves the tree alone |
| StringTreeRename.RenameMissingChildThrows | src/ies/Common/StringTree.cpp:189-192 | a rename whose node lists a child that is not in the node map throws at the child lookup |
| StringTreeRename.RenameOrphan | src/ies/Common/StringTree.cpp:176-192 | renaming a node whose parent is the empty name skips the parent update |
| StringTreeRename.NullRenameFacts | src/ies/Common/StringTree.cpp:171-192 | after renaming a to "", the child c has "" as its parent, and "" is a node listing c as a child |
| StringTreeRename.RenameNodesThrowsAfterNullName | src/ies/Common/StringTree.cpp:156-211 | as written, the list {{a, ""}, {c, d}, {"", x}} with c a child of a reaches a lookup that throws, after the first two renames took effect |
| StringTreeRemoveLevel.RemoveLevel | src/ies/Common/StringTree.cpp:367-413 | level 0 is refused as removing the root; a level past GetMaxLevel() leaves the tree unchanged; a negative level fails at the level lookup; every positive level succeeds |
| StringTreeRemoveLevel.SqueezedEffect | src/ies/Common/StringTree.cpp:382-412 | removing level l drops the nodes at l, hands their children to their parents, moves every deeper node up one level, and shifts the level buckets below l up by one |
| StringTreeExamples.ContextExample | src/ies/Common/StringTree.hpp:130-149 | in the tree {a, b, c} {b, d} {c, e, f, g}, the nodes relative to c are {a} at level 0, {c} at level 1 and {e, f, g} at level 2 |
| StringTreeExamples.SqueezeTreeWellformed | src/ies/Common/StringTree.hpp:182-190 | the tree drawn before RemoveLevel(2) (e, f, g under c, d under e, h under g) satisfies the tree invariant |
| StringTreeExamples.RemoveLevelExample | src/ies/Common/StringTree.hpp:178-201 | RemoveLevel(2) on that tree drops e, f and g and gives exactly the tree drawn after it: d and h at level 2 under c, buckets {a}, {b, c}, {d, h} |
| StringTreeSpecErrors.OneNameSpec | src/ies/Common/StringTree.cpp:55 | for any root and plain name x, the spec "{x}" is refused with the invalid range, since the group has no child to visit |
| StringTreeSpecErrors.OneNameSpecExample | src/ies/Common/StringTree.cpp:55 | StringTree{"r", "{x}"} is refused with the invalid range |
| StringTreeSpecErrors.TrailingCommaSpec | src/ies/Common/StringTree.cpp:42-60 | for plain distinct names, "{root, a} {a, }" creates a and then is refused at the second group, whose trailing comma leaves it one name |
| StringTreeSpecErrors.TrailingCommaSpecExample | src/ies/Common/StringTree.cpp:42-60 | StringTree{"r", "{r, a} {a, }"} is refused with the invalid range |
| StringTreeRemoveLevel.SqueezedWellformed | src/ies/Common/StringTree.cpp:382-412 | the squeezed tree is well formed |
| StringTreeRemoveLevel.SqueezedKeys | src/ies/Common/StringTree.cpp:394 | the nodes left are exactly the old nodes minus those at the removed level |
| StringTreeRemoveLevel.RemoveLevelWellformed | src/ies/Common/StringTree.cpp:367-413 | the result is well formed and, for an existing positive level, holds the old nodes minus that level's bucket and has one level fewer |
| StringTreeSubtree.GetSubtree | src/ies/Common/StringTree.cpp:341-365 | succeeds iff the node exists; the subtree is a well-formed tree rooted at the node, holding exactly its subtree nodes with their children and parents, levels counted from the node, and it is smaller than the tree unless taken at the root |
| StringTreeSubtree.SubtreeWellformed | src/ies/Common/StringTree.cpp:351-363 | the copied subtree is well formed |
| StringTreeSubtree.SubtreeFacts | src/ies/Common/StringTree.cpp:351-363 | the subtree is rooted at the node, holds its subtree nodes, keeps each member's children and each non-root member's parent, and is smaller unless taken at the root |
| StringTreeSubtree.SubtreeSmaller | src/ies/Common/StringTree.cpp:341-365 | a subtree taken below the root has fewer nodes than the tree |
| StringTreeText.ToString | src/ies/Common/StringTree.cpp:451-496 | fails with an invalid range exactly when the tree is the root alone (the level loop over [0, GetMaxLevel()) is empty) |
| StringTreeText.ToStringAllowEmpty | src/ies/Common/StringTree.cpp:451-496 | agrees with ToString wherever it succeeds, and is "" for the root alone |
| StringTreeText.OnlyRoot | src/ies/Common/StringTree.cpp:455 | GetMaxLevel() is 0 iff the tree holds only the root |
| StringTreeText.FromSpec | src/ies/Common/StringTree.cpp:37-61 | the spec constructor refuses an empty root; whatever it builds is a well-formed tree with that root, and it builds nothing from a spec with a group of one name and no '[' |
| StringTreeText.AddChildrenWellformed | src/ies/Common/StringTree.cpp:55-59 | the CreateChildNode calls over a group's children succeed iff the parent exists and the children are non-empty, new and distinct; the result is well formed, keeps the root, and adds exactly the children (BuildGroups reaches this loop only with at least one child) |
| StringTreeText.BuildGroupsWellformed | src/ies/Common/StringTree.cpp:42-60 | reading a list of groups into a well-formed tree yields, if it succeeds, a well-formed tree with the same root; it succeeds only if no group is one name without '[', and a first group of one name fails with the invalid range of IndexRange{1, 1} |
| StringTreeRoundTrip.SkippedGroup | src/ies/Common/StringTree.cpp:45-53 | a group holding '[' or no names leaves the tree unchanged |
| StringTreeRoundTrip.OneNameGroupRefused | src/ies/Common/StringTree.cpp:55 | once the groups before it are read, a group of one name stops the constructor with the invalid range, whatever follows |
| StringTreeRoundTrip.HeaderBuild | src/ies/Common/StringTree.cpp:463-471 | the level separators and "[level] " annotations ToString writes are read back as nothing |
| StringTreeRoundTrip.GroupBuild | src/ies/Common/StringTree.cpp:487-492 | the text "{node, child, ...}" that ToString writes for a node with children is read back as creating exactly its children in sorted order, and "{node}" for a childless node is refused |
| StringTreeRoundTrip.CanonicalRoundTrip | src/ies/Common/StringTree.cpp:37-61 | reading back the canonical spec of a tree, with or without level annotations, rebuilds the same tree |
| StringTreeRoundTrip.ToStringRoundTrip | src/ies/Common/StringTree.hpp:54-78 | StringTree(root, ToString(tree)) is the tree whenever ToString succeeds |
| StringTreeRoundTrip.ToStringAllowEmptyRoundTrip | src/ies/Common/StringTree.hpp:54-78 | the round trip also holds for the root alone, whose spec is "" |
| StringTreeRoundTrip.RootOnlyHasNoText | src/ies/Common/StringTree.cpp:25-61 | the root alone is built from "" but ToString refuses to print it |
| StringTreeRoundTrip.ToStringInjective | src/ies/Common/StringTree.hpp:234 | two trees with the same root and the same canonical text are the same tree |
| StringTreeRoundTrip.AnnotationIgnored | src/ies/Common/StringTree.hpp:54 | reading annotated and unannotated text gives the same tree |
| StringTreeSpecOrder.CutStep | src/ies/Common/StringTree.hpp:55-57 | before the group of order[k] the nodes created so far are closed under parents and include order[k] but none of its children, and the group adds exactly its children |
| StringTreeSpecOrder.OrderPartial | src/ies/Common/StringTree.cpp:43-60 | reading the remaining groups of a creation order from the partial tree built so far succeeds and builds every node the whole order creates |
| StringTreeSpecOrder.FromSpecAnyOrder | src/ies/Common/StringTree.hpp:54-75 | groups in any order where each node is created before its own group (level-sorted, depth-first, canonical) build the tree |
| StringTreeDiff.Diff | src/ies/Common/StringTree.cpp:498-508 | different roots report every node of before as removed and every node of after as updated |
| StringTreeDiff.DiffRemoved | src/ies/Common/StringTree.cpp:498-548 | RemovedNodes holds exactly the nodes of before that after does not hold at the end of the same chain of names from the root |
| StringTreeDiff.DiffSwap | src/ies/Common/StringTree.cpp:510-545 | UpdatedNodes of (before, after) is RemovedNodes of (after, before) |
| StringTreeDiff.DiffExact | src/ies/Common/StringTree.cpp:498-548 | removed: nodes of before not in the same place in after; updated: nodes of after not in the same place in before |
| StringTreeDiff.DiffSameTree | src/ies/Common/StringTree.cpp:498-548 | a tree compared with itself reports nothing |
| StringTreeDiff.DiffCases | src/ies/Common/StringTree.cpp:498-548 | a node in the same place is in neither set, a node only in before is removed, a node only in after is updated, and the sets hold only nodes of their own tree |
| StringTreeObject.StringTree.constructor | src/ies/Common/StringTree.cpp:25-35 | a non-empty root name gives a valid object holding the root alone at level 0 |
| StringTreeObject.New | src/ies/Common/StringTree.cpp:25-35 | an empty root name creates no object and reports the error; any other name gives a fresh valid object holding the root alone |
| StringTreeObject.StringTree.CreateChildNode | src/ies/Common/StringTree.cpp:79-104 | the node and level maps become what CreateChild computes, or stay unchanged with its error; validity is kept |
| StringTreeObject.StringTree.RenameNode | src/ies/Common/StringTree.cpp:156-201 | the state and outcome are the step-by-step as-written rename, including partial updates before a throw; validity is kept unless the new name is "" |
| StringTreeObject.StringTree.RenameNodes | src/ies/Common/StringTree.cpp:202-211 | the loop applies the as-written renames in list order and stops at the first failure |
| StringTreeObject.StringTree.RemoveNode | src/ies/Common/StringTree.cpp:106-154 | the new state is what RemoveNode computes, or unchanged with its error; validity is kept |
| StringTreeObject.StringTree.EraseSubtree | src/ies/Common/StringTree.cpp:125-140 | the erase loop removes every subtree node from the node map and from its level bucket, and leaves the root alone |
| StringTreeObject.StringTree.DropEmptyLevels | src/ies/Common/StringTree.cpp:142-153 | the shrink loop drops trailing empty levels from the bottom and touches nothing else |
| StringTreeObject.StringTree.RemoveLevel | src/ies/Common/StringTree.cpp:367-413 | the new state is what RemoveLevel computes, or unchanged with its error; validity is kept |
| StringTreeObject.ToString | src/ies/Common/StringTree.cpp:451-496 | the writing loops produce exactly the canonical text StringTreeText.ToString specifies, including its failure for the root alone |
| StringTreeObject.WriteLevels | src/ies/Common/StringTree.cpp:455-494 | the level loop writes the text of levels 0 .. k-1, separators and annotations included |
| StringTreeObject.WriteGroups | src/ies/Common/StringTree.cpp:473-493 | the loop over a level's nodes in name order writes one group per node with children, separated by spaces |
| StringTreeObject.WriteGroup | src/ies/Common/StringTree.cpp:487-492 | the inner loop writes "{node" then ", child" for each child in name order, then "}" |
| StringTreeObject.RenameKeepsValid | src/ies/Common/StringTree.cpp:156-201 | the step-by-step rename keeps a well-formed tree well formed when the new name is not "" |
| IntegralRange.Make | src/ies/Common/IntegralRange.hxx:159-178 | construction succeeds exactly when begin < end, or begin == end under the Allow policy; the range keeps both ends |
| IntegralRange.Iterate | src/ies/Common/IntegralRange.hxx:195-217 | forward iteration visits begin, begin+1, ..., end-1 and reverse iteration end-1 down to begin; either way exactly the values of [begin, end), Size() of them |
| IntegralRange.GetMax | src/ies/Common/IntegralRange.hxx:236-245 | defined exactly for a non-empty range, and then the largest value inside it |
| IntegralRange.GetMin | src/ies/Common/IntegralRange.hxx:232 | a lower bound of every value in the range, and inside it when it is not empty |
| IntegralRange.GetExtremum | src/ies/Common/IntegralRange.hxx:258-264 | Min gives GetMin, Max gives GetMax with its error |
| IntegralRange.FindClosest | src/ies/Common/IntegralRange.hxx:274-286 | the result lies in [begin, end], is n itself when n does, and no value of [begin, end] is nearer to n |
| IntegralRange.FindDistance | src/ies/Common/IntegralRange.hxx:288-293 | the distance from n to FindClosest(n); zero exactly when begin <= n <= end; the least distance to [begin, end] |
| IntegralRange.ContainsIsSubset | src/ies/Common/IntegralRange.hxx:296-302 | for a non-empty other range, Contains holds exactly when every value of other lies in the range |
| IntegralRange.OverlapsIsSharedElement | src/ies/Common/IntegralRange.hxx:305-311 | two non-empty ranges overlap exactly when they share a value, and overlapping is symmetric |
| IntegralRange.Shift | src/ies/Common/IntegralRange.hxx:333-344 | fails exactly on an empty range; otherwise a valid range of the same size holding x + n exactly for the values x of the original |
| IntegralRange.ToStringReadsBack | src/ies/Common/IntegralRange.hxx:346-352 | the text is "[" begin ", " end ")" with both ends in decimal, and the two numbers parse back to begin and end |
| IntegralRangeList.InsertOrAssign | src/ies/Common/IntegralRangeList.hxx:78 | the stored ranges stay ordered by begin; r is stored and replaces only an entry with the same begin |
| IntegralRangeList.StoreIfSpace | src/ies/Common/IntegralRangeList.hxx:71-80 | a range with space is stored; without space the list is unchanged |
| IntegralRangeList.HasRangeAsWritten | src/ies/Common/IntegralRangeList.hxx:91-104 | over non-empty stored ranges the answer is whether some range covers v, with no error |
| IntegralRangeList.AddRangeAsWrittenLosesCoverage | src/ies/Common/IntegralRangeList.hxx:74-80 | adding the empty [2, 2) to {[2, 5)} replaces [2, 5): value 3 is no longer covered and HasRange then throws |
| IntegralRangeList.InsertKeepsWellFormed | src/ies/Common/IntegralRangeList.hxx:17-18 | inserting a non-empty range that has space keeps the stored ranges sorted, non-empty and pairwise disjoint |
| IntegralRangeList.OverlappingMembers | src/ies/Common/IntegralRangeList.hxx:138-164 | the overlapping sub-list holds exactly the stored ranges that overlap r, and is itself well formed |
| IntegralRangeList.ScanWindow | src/ies/Common/IntegralRangeList.hxx:146-152 | the scanned window starts at the last range beginning at or before r.begin and every range after it begins at or after r.end |
| IntegralRangeList.RangeList.constructor | src/ies/Common/IntegralRangeList.hxx:17-18 | a new list is empty and valid |
| IntegralRangeList.RangeList.AddRange | src/ies/Common/IntegralRangeList.hxx:71-80 | the corrected AddRange: a non-empty range with space is added and nothing else changes, otherwise the list is unchanged; validity is kept |
| IntegralRangeList.RangeList.AddRangeAsWritten | src/ies/Common/IntegralRangeList.hxx:71-80 | the list becomes StoreIfSpace of the old one; a non-empty range keeps it valid, an empty range with space breaks validity |
| IntegralRangeList.RangeList.HasSpace | src/ies/Common/IntegralRangeList.hxx:82-89 | true exactly when no stored range overlaps r |
| IntegralRangeList.RangeList.HasRange | src/ies/Common/IntegralRangeList.hxx:91-104 | true exactly when some stored [b, e) has b <= v < e |
| IntegralRangeList.RangeList.GetRange | src/ies/Common/IntegralRangeList.hxx:106-122 | fails exactly when no range covers v; otherwise a stored range containing v |
| IntegralRangeList.RangeList.GetRanges | src/ies/Common/IntegralRangeList.hxx:124-136 | exactly the stored ranges, in ascending begin order and pairwise separated |
| IntegralRangeList.RangeList.FindOverlappingRanges | src/ies/Common/IntegralRangeList.hxx:138-164 | exactly the stored ranges that overlap r, in order |
| IntegralRangeList.RangeList.ScanOverlapping | src/ies/Common/IntegralRangeList.hxx:154-161 | the loop collects the ranges of the window that overlap r |
| IntegralRangeList.RangeList.FindAdjacentRanges | src/ies/Common/IntegralRangeList.hxx:166-198 | fails exactly when no range begins at b; Begin is present exactly when the predecessor ends at b, End exactly when the successor begins where the range ends, each holding that neighbour |
| IntRangeUtil.FindOverlappingRange | src/ies/Common/IntRangeUtil.cpp:6-12 | the clamped ends always form a valid range inside range1, holding exactly the values both ranges hold |
| IntRangeUtil.OverlappingRangeIsIntersection | src/ies/Common/IntRangeUtil.hpp:10-20 | for overlapping ranges the result is [max(b1, b2), min(e1, e2)) and is not empty |
| IntRangeUtil.DisjointRangeIsEmptyAtNearestEnd | src/ies/Common/IntRangeUtil.hpp:10-20 | for disjoint ranges the result is the empty range at the end of range1 nearest range2 |
| IntRangeUtil.FindOverlappingPortion | src/ies/Common/IntRangeUtil.cpp:14-22 | fails exactly on an empty subject; otherwise the overlap size and the subject size, with the overlap never larger, equal exactly when the target covers the subject, and zero exactly when they do not overlap |
| IntRangeUtil.PortionBounds | src/ies/Common/IntRangeUtil.hpp:25-31 | the overlap has the subject's size exactly when the target covers it, and size 0 exactly when the ranges do not overlap |
| SplitString.FindFirstOf | src/ies/String/SplitString.cpp:23 | the first position at or after pos holding a separator, or the length when there is none |
| SplitString.FindFirstNotOf | src/ies/String/SplitString.cpp:21 | the first position at or after pos holding a non-separator, or the length when there is none |
| SplitString.SplitString | src/ies/String/SplitString.cpp:6-31 | the loop's tokens are Runs(separators, input), the maximal runs of non-separators from left to right |
| SplitString.RunsFromAreRuns | src/ies/String/SplitString.hpp:11-12 | no token is empty and none holds a separator |
| SplitString.RunsFromConcat | src/ies/String/SplitString.cpp:19-30 | the tokens, concatenated, are the input with its separators deleted |
| SplitString.RunsProperties | src/ies/String/SplitString.hpp:11-12 | the tokens are non-empty, separator-free and together spell the input without its separators |
| SplitString.RunsOfSeparatorsOnly | src/ies/String/SplitString.cpp:19-21 | an input made only of separators, the empty input included, gives no token |
| SplitString.SplitStringHeaderExample | src/ies/String/SplitString.hpp:12 | "a,,b,c," split on "," gives a, b, c |
| SplitString.SplitStringBracketsExample | src/ies/String/SplitStringTest.cpp:16-30 | "(x,y), ,(a b)" split on "() ," gives x, y, a, b |
| SplitString.SplitStringRepeatedSeparatorExample | src/ies/String/SplitStringViewTest.cpp:10-28 | "a,b,c,,,e" split on "," gives a, b, c, e |
| SplitString.SplitStringPreserve | src/ies/String/SplitString.cpp:33-62 | the loop's tokens are Fields(separators, input): the texts between consecutive separators |
| SplitString.FieldsFromCount | src/ies/String/SplitString.cpp:46-59 | there is one more token than there are separators |
| SplitString.FieldsFromHaveNoSeparator | src/ies/String/SplitString.cpp:52-58 | no token holds a separator |
| SplitString.FieldsFromJoin | src/ies/String/SplitString.cpp:52-58 | the tokens joined with the separators they were cut at give back the text |
| SplitString.FieldsRebuildInput | src/ies/String/SplitString.hpp:20-21 | for the whole input: separator count + 1 tokens, none holding a separator, which joined with the separators rebuild the input |
| SplitString.FieldsOfNoSeparator | src/ies/String/SplitString.cpp:46-51 | an input without separators is its own single token, [""] for the empty input |
| SplitString.SplitStringPreserveExample | src/ies/String/SplitStringTest.cpp:32-47 | ",,b,,,e,," gives the eight tokens "", "", b, "", "", e, "", "" |
| SplitString.SplitStringPreserveHeaderExample | src/ies/String/SplitString.hpp:21 | "a,,b,c," gives a, "", b, c, "" |
| SplitStringView.Texts | src/ies/String/SplitStringView.cpp:28 | one text per view |
| SplitStringView.SplitStringView | src/ies/String/SplitStringView.cpp:6-31 | the loop's views are RunViewsFrom(separators, input, 0) |
| SplitStringView.RunViewsFromTexts | src/ies/String/SplitStringView.cpp:19-30 | the views lie inside the input and their texts are exactly the SplitString tokens |
| SplitStringView.RunViewsProperties | src/ies/String/SplitStringView.hpp:13-16 | views inside the input, texts equal to SplitString's tokens, none empty, in increasing order with a gap between each two |
| SplitStringView.FieldViewsFromTile | src/ies/String/SplitStringView.cpp:46-59 | the preserving views tile the input: each starts one past the previous one's end |
| SplitStringView.FieldViewsFromTexts | src/ies/String/SplitStringView.cpp:46-59 | the preserving views' texts are exactly the SplitStringPreserve tokens |
| SplitStringView.FieldViewsProperties | src/ies/String/SplitStringView.hpp:25-28 | for the whole input: views inside it, texts equal to SplitStringPreserve's tokens, tiling the input |
| SplitStringView.SplitStringViewPreserve | src/ies/String/SplitStringView.cpp:33-62 | the loop's views are FieldViewsFrom(separators, input, 0) |
| RecursiveReplace.Find | src/ies/String/RecursiveReplace.cpp:12 | std::string::find: the first occurrence of the pattern at or after pos, or none after pos |
| RecursiveReplace.Replace | src/ies/String/RecursiveReplace.cpp:14 | std::string::replace: the prefix, then the replacement, then the rest after the replaced part |
| RecursiveReplace.RewriteFrom | src/ies/String/RecursiveReplace.cpp:11-15 | the loop from pos leaves no occurrence at or after its last search position, changes the length by \|to\| - \|from\| per replacement, keeps the text before pos, and replaces nothing exactly when nothing is found |
| RecursiveReplace.RecursiveReplaced | src/ies/String/RecursiveReplace.cpp:6-17 | an empty from, or a from that does not occur, leaves s unchanged; a to no longer than from never lengthens s |
| RecursiveReplace.RecursiveReplace | src/ies/String/RecursiveReplace.cpp:6-17 | the while loop computes RecursiveReplaced |
| RecursiveReplace.NothingToReplace | src/ies/String/RecursiveReplace.cpp:9 | an empty from leaves s unchanged and an empty s stays empty |
| RecursiveReplace.ReplacementKeepsFinding | src/ies/String/RecursiveReplace.cpp:12-15 | when to contains from, the search from the replacement position finds from again |
| RecursiveReplace.NeverEnds | src/ies/String/RecursiveReplace.cpp:12-15 | when to contains from and from occurs, every number of turns of the loop still finds from: the loop never ends |
| RecursiveReplace.ReplacedEverywhere | src/ies/String/RecursiveReplace.hpp:10 | the behaviour the header describes: no occurrence of from is left |
| RecursiveReplace.RecursiveReplaceProperties | src/ies/String/RecursiveReplace.cpp:11-15 | when to does not contain from, the loop ends with no occurrence at or after its last position and the text shorter by count * (\|from\| - \|to\|) |
| RecursiveReplace.OccurrenceLeftBehind | src/ies/String/RecursiveReplace.hpp:10 | "aabb" with "ab" -> "b" gives "abb", which still holds "ab"; the header's reading would give "bb" |
| RecursiveReplaceRuns.Residue | src/ies/String/RecursiveReplace.cpp:11-15 | what the loop leaves of a run of n slashes: one slash (none when n = 0) when "//" becomes "/", n mod 2 slashes when it becomes "" |
| RecursiveReplaceRuns.Collapsed | src/ies/String/RecursiveReplace.cpp:11-15 | the letters kept in order, every run replaced by its residue |
| RecursiveReplaceRuns.CollapseRun | src/ies/String/RecursiveReplace.cpp:11-15 | at a run of slashes the loop keeps finding "//" at the same place and shrinks the run to its residue |
| RecursiveReplaceRuns.SegmentsCollapse | src/ies/String/RecursiveReplace.cpp:11-15 | from the start of letter-and-run segments the loop collapses every run to its residue and keeps every letter |
| RecursiveReplaceRuns.RunsCollapse | src/ies/String/RecursiveReplace.hpp:12-14 | on any text of letters followed by runs of slashes, "//" -> "/" leaves one slash of every non-empty run and "//" -> "" leaves each run's parity |
| RecursiveReplaceRuns.CollapseSlashesExample | src/ies/String/RecursiveReplaceTest.cpp:31-36 | "a///////b//c/d//e////" with "//" -> "/" gives "a/b/c/d/e/" |
| RecursiveReplaceRuns.EmptyReplacementExample | src/ies/String/RecursiveReplaceTest.cpp:24-29 | "a///////b//c/d//e////" with "//" -> "" gives "a/bc/de" |
| RecursiveReplace.BackslashToSlashExample | src/ies/String/RecursiveReplace.cpp:11-15 | "a\b" with "\" -> "/" gives "a/b" |
| RecursiveReplace.RecursiveReplaceChecked | src/ies/String/RecursiveReplace.cpp:6-17 | a result exactly when the loop ends: none exactly when from is non-empty, occurs in s and occurs in to; the result is RecursiveReplaced |
| Levenshtein.Store | src/ies/String/Levenshtein.cpp:43-51 | writing one table cell: that cell holds the value, every other cell and the shape are unchanged |
| Levenshtein.BoundaryFilled | src/ies/String/Levenshtein.cpp:23-31 | after the two boundary loops (row 0 holds j, column 0 holds i) the table agrees with the distance on its edges |
| Levenshtein.CellAsComputed | src/ies/String/Levenshtein.cpp:33-51 | a cell is the least of deletion + 1, insertion + 1 and substitution + cost, and of the transposition + 1 when the last two characters are swapped |
| Levenshtein.DamerauLevenshtein | src/ies/String/Levenshtein.cpp:11-64 | the table loops return EditDistance(str1, str2), the optimal-string-alignment distance |
| Levenshtein.EqualPrefixesAtZero | src/ies/String/LevenshteinTest.cpp:10-26 | equal prefixes are at distance 0 |
| Levenshtein.IdenticalStringsAtZero | src/ies/String/LevenshteinTest.cpp:10-26 | a string is at distance 0 from itself, the empty string included |
| Levenshtein.ZeroDistanceEqualPrefixes | src/ies/String/Levenshtein.cpp:33-51 | a table cell is 0 only on the diagonal, for equal prefixes |
| Levenshtein.EditDistanceZeroIffEqual | src/ies/String/Levenshtein.hpp:13-14 | the distance is 0, which makes the normalised factor (maxSize - distance) / maxSize equal 1.0, exactly when the strings are identical |
| Levenshtein.DistanceAtLeastLengthGap | src/ies/String/Levenshtein.cpp:33-51 | every table entry is at least the difference of the prefix lengths |
| Levenshtein.DistanceAtMostLongerLength | src/ies/String/Levenshtein.hpp:13-14 | every table entry is at most the longer prefix length |
| Levenshtein.EditDistanceBounds | src/ies/String/Levenshtein.hpp:13-14 | the distance lies between the length difference and the longer length, so the documented factor lies in [0, 1] |
| Levenshtein.DistanceSymmetric | src/ies/String/Levenshtein.cpp:33-51 | swapping the strings transposes the table |
| Levenshtein.EditDistanceSymmetric | src/ies/String/Levenshtein.cpp:33-51 | the distance does not depend on the order of the two strings |
| Levenshtein.DropLastCharacter | src/ies/String/LevenshteinTest.cpp:28-35 | a string one character longer than its prefix is at distance 1 from it |
| Levenshtein.SimilarStringsExample | src/ies/String/LevenshteinTest.cpp:28-35 | "abcde" and "abcd" are at distance 1 |
| ReverseEqualRange.ReverseLowerBound | src/ies/StdUtil/ReverseEqualRange.hxx:14-22 | on ascending input: the last position holding a value <= v, or -1 (crend) when every element is greater |
| ReverseEqualRange.ReverseUpperBound | src/ies/StdUtil/ReverseEqualRange.hxx:39-47 | on ascending input: the last position holding a value < v, or -1 (crend) |
| ReverseEqualRange.ReverseEqualRange | src/ies/StdUtil/ReverseEqualRange.hxx:88-94 | the positions between the two bounds are exactly those holding v |
| ReverseEqualRange.LowerBound | src/ies/StdUtil/ReverseEqualRangeTest.cpp:77-102 | the reference std::lower_bound: the first position not below v |
| ReverseEqualRange.UpperBound | src/ies/StdUtil/ReverseEqualRangeTest.cpp:77-102 | the reference std::upper_bound: the first position above v |
| ReverseEqualRange.ReverseEqualRangeMatchesEqualRange | src/ies/StdUtil/ReverseEqualRange.hxx:88-94 | the reverse bounds are the forward bounds minus one, and the reverse span lists std::equal_range's elements backwards |
| ReverseEqualRange.AboveEverythingGivesBegin | src/ies/StdUtil/ReverseEqualRangeTest.cpp:33 | a value above every element gives crbegin for both bounds |
| ReverseEqualRange.MapReverseLowerBound | src/ies/StdUtil/ReverseEqualRange.hxx:24-37 | the map overload compares keys only: the last entry whose key is <= key |
| ReverseEqualRange.MapReverseUpperBound | src/ies/StdUtil/ReverseEqualRange.hxx:49-62 | the map overload compares keys only: the last entry whose key is < key |
| ReverseEqualRange.MapEqualRangeAtMostOne | src/ies/StdUtil/ReverseEqualRangeTest.cpp:68-75 | over a map's distinct keys the range holds at most one entry, and exactly one when the key is present |
| ReverseEqualRange.EqualRangeExample | src/ies/StdUtil/ReverseEqualRangeTest.cpp:77-102 | in {0, 1, 2, 2, 2, 3, 4, 4, 4, 5, 7} the 4s sit at positions 6..8 |
| MapApply.MapApplyWithInit | src/ies/StdUtil/MapApply.hxx:9-21 | the key becomes present; its value becomes the operation applied to the old value, or to initialValue when absent; other keys keep their values; the new value is returned |
| MapApply.MapApply | src/ies/StdUtil/MapApply.hxx:24-31 | MapApplyWithInit with initial value 0 |
| MapApply.MapIncrementWithInit | src/ies/StdUtil/MapApply.hxx:36-43 | an absent key becomes initialValue + 1, a present one grows by 1, nothing else changes |
| MapApply.MapIncrementCount | src/ies/StdUtil/MapApply.hxx:49-55 | an absent key becomes 1, a present one grows by 1, nothing else changes |
| MapApply.MapAddCount | src/ies/StdUtil/MapApply.hxx:61-68 | an absent key becomes addingValue, a present one grows by addingValue, nothing else changes |
| MapApply.DoubleApplyExample | src/ies/StdUtil/MapApplyTest.cpp:43-59 | doubling keys 1, 3 and the absent 5 turns {0:0, 1:1, 2:3, 3:5, 4:7} into {0:0, 1:2, 2:3, 3:10, 4:7, 5:0} |
| MapApply.AddCountExample | src/ies/StdUtil/MapApplyTest.cpp:91-108 | adding counts to present and absent keys gives the map of the test |
| MapApply.IncrementWithInitExample | src/ies/StdUtil/MapApplyTest.cpp:61-70 | incrementing the present key 2 (3 becomes 4) and the absent key 1 from initial value 0 (becomes 1) |
| EraseIf.EraseIfSet | src/ies/StdUtil/EraseIf.hxx:20-30 | the loop keeps exactly the elements whose predicate is false |
| EraseIf.EraseIfMap | src/ies/StdUtil/EraseIf.hxx:20-30 | the loop keeps exactly the entries whose predicate is false, each with its value |
| EraseIf.EraseOddExample | src/ies/StdUtil/EraseIfTest.cpp:11-18 | erasing the odd elements of {1, 2, 3} leaves {2} |
| EraseIf.EraseEntriesExample | src/ies/StdUtil/EraseIfTest.cpp:20-29 | erasing entries by a predicate on the (key, value) pair keeps the others with their values |
| AdditionOrdered.DistinctCount | src/ies/StdUtil/AdditionOrderedPtrHashSet.hxx:69-70 | a duplicate-free vector has as many entries as the set of its elements |
| AdditionOrdered.AdditionOrderedSet.constructor | src/ies/StdUtil/AdditionOrderedPtrHashSet.hxx:24-30 | both containers start empty and in lockstep |
| AdditionOrdered.AdditionOrderedSet.SizesAgree | src/ies/StdUtil/AdditionOrderedPtrHashSetTest.cpp:59-60 | the set and the vector hold the same number of keys |
| AdditionOrdered.AdditionOrderedSet.Emplace | src/ies/StdUtil/AdditionOrderedPtrHashSet.hxx:48-59 | true exactly when the key was absent; the key is then in the set and appended to the vector, otherwise neither changes; the lockstep invariant is kept |
| AdditionOrdered.AdditionOrderedSet.Clear | src/ies/StdUtil/AdditionOrderedPtrHashSet.hxx:61-66 | both containers become empty |
| AdditionOrdered.AdditionOrderedMap.constructor | src/ies/StdUtil/AdditionOrderedPtrHashMap.hxx:24-30 | both containers start empty and in lockstep |
| AdditionOrdered.AdditionOrderedMap.AdditionOrderedVector | src/ies/StdUtil/AdditionOrderedPtrHashMap.hxx:41-46 | the vector pairs each key, in addition order, with the value the map stores for it |
| AdditionOrdered.AdditionOrderedMap.SizesAgree | src/ies/StdUtil/AdditionOrderedPtrHashMapTest.cpp:62-63 | the map and the vector hold the same number of keys |
| AdditionOrdered.AdditionOrderedMap.TryEmplace | src/ies/StdUtil/AdditionOrderedPtrHashMap.hxx:48-60 | inserts only an absent key and says whether it did; a present key keeps its value; a new key is appended to the vector; the stored value is returned |
| AdditionOrdered.AdditionOrderedMap.Clear | src/ies/StdUtil/AdditionOrderedPtrHashMap.hxx:62-67 | both containers become empty |
| AdditionOrdered.SetAdditionOrderExample | src/ies/StdUtil/AdditionOrderedPtrHashSetTest.cpp:22-63 | adding c, b, a and b again: the repeat is refused, the vector is c, b, a and the size 3 |
| AdditionOrdered.MapAdditionOrderExample | src/ies/StdUtil/AdditionOrderedPtrHashMapTest.cpp:24-78 | the repeated key keeps its first value and the vector lists c, b, a with their values |
| AdjacentArrayRange.Window | src/ies/Common/AdjacentArrayRange.hxx:39-43 | the n consecutive positions from start |
| AdjacentArrayRange.AdjacentArrayIterator.constructor | src/ies/Common/AdjacentArrayRange.hxx:29-51 | a container with room for n elements from first gives the window first.. first+n-1; otherwise the iterator is the end iterator |
| AdjacentArrayRange.AdjacentArrayIterator.Increment | src/ies/Common/AdjacentArrayRange.hxx:67-92 | the end iterator fails to increment; a window at the container's end becomes the end iterator; otherwise the window moves by one |
| AdjacentArrayRange.IterateRange | src/ies/Common/AdjacentArrayRange.hxx:114-172 | N = 0 is rejected by IndexRange{0, N}; otherwise the range-for loop visits exactly PositionWindows(length, N) |
| AdjacentArrayRange.ToValueArray | src/ies/Common/AdjacentArrayRange.hxx:178-193 | the values the window points to, in window order |
| AdjacentArrayRange.ToValueArrayOfMap | src/ies/Common/AdjacentArrayRange.hxx:205-220 | the mapped values of the entries the window points to |
| AdjacentArrayRange.PositionWindowsAreRuns | src/ies/Common/AdjacentArrayRange.hxx:149-166 | \|c\| - N + 1 windows, window k being the positions k..k+N-1 and holding c[k..k+N] |
| AdjacentArrayRange.ShortContainerHasNoWindows | src/ies/Common/AdjacentArrayRangeTest.cpp:63-77 | a container shorter than N gives no window |
| AdjacentArrayRange.SingletonWindows | src/ies/Common/AdjacentArrayRangeTest.cpp:11-25 | N = 1 gives every position as its own window, in order |
| AdjacentArrayRange.WindowsSlideByOne | src/ies/Common/AdjacentArrayRange.hxx:85-89 | consecutive windows share all but one position |
| AdjacentArrayRange.ThreeWindowsExample | src/ies/Common/AdjacentArrayRangeTest.cpp:27-61 | windows of three over {1, 2, 3, 4, 5} are {1, 2, 3}, {2, 3, 4}, {3, 4, 5} |
| AdjacentArrayRange.MapWindowsExample | src/ies/Common/AdjacentArrayRangeTest.cpp:95-109 | windows of two over a map's mapped values {1, 2, 3, 4} are {1, 2}, {2, 3}, {3, 4} |
| AdjacentArrayRange.DegenerateExample | src/ies/Common/AdjacentArrayRange.hxx:32 | a two-element container gives no window of three; a window size of 0 is rejected |
| AdjacentVectorRange.IterateVectorRange | src/ies/Common/AdjacentVectorRange.hxx:111-176 | a size <= 1 is rejected; otherwise the range-for loop visits exactly PositionWindows(length, size) |
| AdjacentVectorRange.ToValueVector | src/ies/Common/AdjacentVectorRange.hxx:182-196 | the values the window points to; an empty window is rejected by IndexRange{0, 0} |
| AdjacentVectorRange.ToValueVectorOfMap | src/ies/Common/AdjacentVectorRange.hxx:208-222 | the mapped values the window points to; an empty window is rejected |
| AdjacentVectorRange.WindowCountExample | src/ies/Common/AdjacentVectorRangeTest.cpp:10-24 | six elements with sizes 2 to 6 give 5, 4, 3, 2 and 1 windows |
| AdjacentVectorRange.SizeOneExample | src/ies/Common/AdjacentVectorRange.hxx:118-125 | a size of 1 is rejected |
| Endian.LittleEndianValue | src/ies/Common/Endian.hxx:9-10 | the number n bytes denote least significant first is below 256^n |
| Endian.BigEndianValue | src/ies/Common/Endian.hxx:14-21 | the number n bytes denote most significant first is below 256^n |
| Endian.LittleEndianBytes | src/ies/Common/Endian.hxx:9-10 | the n bytes of a number, least significant first |
| Endian.Reversed | src/ies/Common/Endian.hxx:30-33 | the reversed window has the window's length and holds byte size - 1 - j at position j |
| Endian.Pow256Add | src/ies/Common/Endian.hxx:9-10 | 256^(a + b) = 256^a * 256^b: a window's value splits at a byte boundary |
| Endian.ToLittleEndian | src/ies/Common/Endian.hxx:47-54 | the first sizeof(T) bytes read least significant first as T: a value of T's range |
| Endian.ToBigEndian | src/ies/Common/Endian.hxx:22-35 | the copy-and-swap gives the first sizeof(T) bytes read most significant first as T, a value of T's range |
| Endian.SwapBytes | src/ies/Common/Endian.hxx:30-33 | the swap loop over size/2 pairs reverses the byte window in place |
| Endian.ToLittleEndianAt | src/ies/Common/Endian.hxx:56-65 | reads at buffer[offset] and advances the offset by sizeof(T) |
| Endian.ToBigEndianAt | src/ies/Common/Endian.hxx:37-45 | reads sizeof(T) bytes most significant first at buffer[offset] and advances the offset by sizeof(T) |
| Endian.FromRawInRange | src/ies/Common/Endian.hxx:28-29 | a raw pattern of sizeof(T) bytes read as T lies in T's range and has that pattern (two's complement for signed T) |
| Endian.ToRawRoundTrip | src/ies/Common/Endian.hxx:28-29 | every value of T has a raw pattern below 256^sizeof(T) that reads back as the value |
| Endian.LittleEndianRoundTrip | src/ies/Common/Endian.hxx:53 | writing a number below 256^n as n bytes and reading them back gives the number |
| Endian.LittleEndianBytesOfValue | src/ies/Common/Endian.hxx:53 | reading n bytes and writing the number back as n bytes gives the bytes |
| Endian.ReversedIsBigEndian | src/ies/Common/Endian.hxx:9-10 | reading the reversed bytes least significant first is reading the bytes most significant first |
| Endian.BigEndianIsReversedLittleEndian | src/ies/Common/Endian.hxx:28-33 | ToBigEndian is the little-endian reading of the reversed window |
| Endian.ByteExamples | src/ies/Common/EndianTest.cpp:12-24 | {FF} reads as 255 unsigned and -1 signed |
| Endian.SixteenBitExamples | src/ies/Common/EndianTest.cpp:33-38 | {AB, CD} most significant first reads as 0xABCD unsigned and -21555 signed |
| Endian.FourBytes | src/ies/Common/Endian.hxx:16-21 | four bytes as polynomials in 256, in both orders |
| Endian.EightBytes | src/ies/Common/EndianTest.cpp:57-62 | eight bytes most significant first: the first four shifted past the last four |
| Endian.BigEndianAppend | src/ies/Common/Endian.hxx:14-15 | bytes most significant first followed by more: the first part shifted past the second |
| Endian.ReadFourBytes | src/ies/Common/EndianTest.cpp:40-48 | a four-byte type read from {a, b, c, d} in both byte orders |
| Endian.ReadEightBytes | src/ies/Common/EndianTest.cpp:57-62 | an eight-byte type read most significant first from {a, ..., h} |
| Endian.ThirtyTwoBitExamples | src/ies/Common/EndianTest.cpp:40-55 | {01, 02, 03, 04} as uint32 is 0x01020304 most significant first and 0x04030201 least significant first; {AB, CD, EF, 04} as int32 is -1412567292 |
| Endian.SixtyFourBitExamples | src/ies/Common/EndianTest.cpp:57-69 | eight bytes as uint64 and int64, most significant first |
| Endian.TwoBytes | src/ies/Common/Endian.hxx:14-54 | two bytes in either order |
| Endian.BigEndianWords | src/ies/Common/EndianTest.cpp:103-119 | the offset test loop most significant first: one uint16 per pair of bytes, the offset ending at twice the count |
| Endian.LittleEndianWords | src/ies/Common/EndianTest.cpp:121-137 | the same loop least significant first |
| Endian.OffsetExamples | src/ies/Common/EndianTest.cpp:103-137 | four uint16 reads over eight bytes in both orders leave the offset at 8 |
| ByteDump.Cell | src/ies/Common/Byte.cpp:60-65 | every cell is three characters, opening with the column's separator ('\|' at columns 0 and 8, a space otherwise) |
| ByteDump.LineBoundary | src/ies/Common/Byte.cpp:74-87 | the end of the last line: the first multiple of 16 at or after end |
| ByteDump.ToStringOfData | src/ies/Common/Byte.cpp:28-89 | the pointer overload computes Dump: begin clamped to end, the header, then the lines of the range |
| ByteDump.AppendLines | src/ies/Common/Byte.cpp:44-87 | after the header: the pieces of every position from the start of begin's line to the end of end's line |
| ByteDump.AppendLeading | src/ies/Common/Byte.cpp:45-56 | the blank cells from the start of begin's line up to begin |
| ByteDump.AppendTrailing | src/ies/Common/Byte.cpp:74-87 | the blank cells from end to the end of its line, then that line's end |
| ByteDump.AppendBlanks | src/ies/Common/Byte.cpp:47-55 | the loops over blank columns write the blank cells of those columns |
| ByteDump.AppendBlank | src/ies/Common/Byte.cpp:49-54 | one pass of a blank loop adds the cell of its column |
| ByteDump.AppendBytes | src/ies/Common/Byte.cpp:58-72 | the loop over the range writes each byte's piece and ends with the line counter at end / 16 |
| ByteDump.AppendByte | src/ies/Common/Byte.cpp:60-71 | one pass writes the byte's cell and, after column 15, the line's end, advancing the line counter |
| ByteDump.ToStringOfRange | src/ies/Common/Byte.cpp:18-26 | end is clamped to the array's size, then the pointer overload |
| ByteDump.ToString | src/ies/Common/Byte.cpp:12-16 | the whole array: the range [0, size) |
| ByteDump.EmptyRangePrintsHeader | src/ies/Common/Byte.cpp:31-42 | an empty or reversed range prints only the header, with begin clamped to end |
| ByteDump.NonEmptyRange | src/ies/Common/Byte.cpp:35-87 | a non-empty range prints the header followed by its whole lines |
| ByteDump.LineShape | src/ies/Common/Byte.hpp:25-31 | every line is sixteen three-character cells, with '\|' at columns 0 and 8, followed by the line's end |
| ByteDump.CellShowsByte | src/ies/Common/Byte.cpp:65 | a position inside the range shows its byte as two hex digits that read back as the byte; one outside shows two blanks |
| IntegerPow.ToInt | src/ies/Common/IntegerPow.hxx:55 | the `int` that a uint64 bit estimate is stored in is a signed 32-bit value congruent to it modulo 2^32, and equal to it below 2^31 |
| IntegerPow.BoundaryCases | src/ies/Common/IntegerPow.hxx:15-47 | exponent 0 gives 1, base 0 with a positive exponent gives 0, base 1 gives 1, exponent 1 gives the base, in both the as-written and the corrected model |
| IntegerPow.PowerOfTwo | src/ies/Common/IntegerPow.hxx:48-52 | base 2 compiles exactly when the exponent is below 64, and then yields 2^exp; the correction does not touch this branch |
| IntegerPow.AsWrittenStep | src/ies/Common/IntegerPow.hxx:53-72 | when the as-written recursion compiles, its value is N times (odd) or equal to (even) the value for the wrapped square N*N and exp/2, truncated to 64 bits |
| IntegerPow.AsWrittenIsModular | src/ies/Common/IntegerPow.hxx:15-73 | every value the as-written CalculateIntegerPow produces is N^exp modulo 2^64 |
| IntegerPow.CheckedLevelBound | src/ies/Common/IntegerPow.hxx:55-65 | the bit estimate from the widths of N-1 and N*N-1 bounds N^exp by 2 to the estimate |
| IntegerPow.CheckedProductFits | src/ies/Common/IntegerPow.hxx:55-68 | an estimate below 64 bits guarantees N^exp fits in a uint64 |
| IntegerPow.CorrectedStep | src/ies/Common/IntegerPow.hxx:53-72 | when the corrected recursion compiles, the square N*N does not wrap, the recursive call compiles too, and the odd-branch product does not wrap |
| IntegerPow.CalculateIntegerPowIsExact | src/ies/Common/IntegerPow.hxx:15-73 | every value the corrected CalculateIntegerPow produces is exactly N^exp |
| IntegerPow.TotalBitsExact | src/ies/Common/IntegerPow.hxx:55-65 | when the bit estimate is below 2^31, storing it in an `int` changes nothing |
| IntegerPow.SameValue | src/ies/Common/IntegerPow.hxx:15-73 | where both the as-written and the corrected recursion compile, they give the same value |
| IntegerPow.CorrectionOnlyRejects | src/ies/Common/IntegerPow.hxx:15-73 | whatever the corrected recursion accepts, the as-written one accepts with the same value: the correction only adds compile errors |
| IntegerPow.TableEntries | src/ies/Common/IntegerPow.hxx:75-83 | a generated table compiles iff every entry does, has one entry per index, and holds entry i at index i |
| IntegerPow.IntegerPowTableCompiles | src/ies/Common/IntegerPow.hxx:75-83 | GenerateIntegerPowTable<N, MaxExp> compiles iff N^i compiles for every i below MaxExp |
| IntegerPow.IntegerPowTable | src/ies/Common/IntegerPow.hxx:75-83 | a compiled table has MaxExp entries and entry i is N^i |
| IntegerPow.LookupIntegerPowValue | src/ies/Common/IntegerPow.hxx:85-99 | LookupIntegerPow compiles iff its table does, returns N^exp below MaxExp and 0 at or above it |
| IntegerPow.LookupIntegerPowAsWrittenValue | src/ies/Common/IntegerPow.hxx:85-99 | the as-written lookup compiles iff every as-written entry does, returns that entry below MaxExp and 0 at or above it |
| IntegerPow.LookupCorrectionOnlyRejects | src/ies/Common/IntegerPow.hxx:85-99 | whatever the corrected lookup returns, the as-written lookup returns too |
| IntegerPowExamples.PowersOfTwo | src/ies/Common/IntegerPowTest.cpp:10-56 | 2^2, 2^8, 2^10, 2^16, 2^32 and 2^63 take their values and 2^64 does not compile |
| IntegerPowExamples.PowersOfFour | src/ies/Common/IntegerPowTest.cpp:60-77 | 4^31 is 2^62 and 4^32 does not compile |
| IntegerPowExamples.PowersOfAHundred | src/ies/Common/IntegerPowTest.cpp:80-114 | 100^2 is 10000 and 10^21 does not compile |
| IntegerPowExamples.ElevenToTheNineteenWraps | src/ies/Common/IntegerPow.hxx:53-62 | 11^19 exceeds 2^64, yet the as-written recursion compiles it to 5818858227285891443; the corrected one refuses it |
| IntegerPowExamples.MaxSquaredWraps | src/ies/Common/IntegerPow.hxx:63-72 | (2^64-1)^2 compiles to 1 as written, because N*N-1 wraps before its width is measured; the corrected model refuses it |
| IntegerPowExamples.MaxTableWraps | src/ies/Common/IntegerPow.hxx:85-99 | LookupIntegerPow<2^64-1, 3>(2) returns 1 as written and does not compile when corrected |
| IntegerPowExamples.MaxTableFails | src/ies/Common/IntegerPow.hxx:75-83 | one failing entry makes the whole corrected table fail to compile |
| IntegerPowExamples.PowerOfTenCompiles | src/ies/Common/IntegerPowTest.cpp:109-116 | 10^e compiles for every e below 20 |
| IntegerPowExamples.TenTableCompiles | src/ies/Common/IntegerPowTest.cpp:109-116 | the table of powers of ten up to 20 entries compiles |
| IntegerPowExamples.PowersOfTenTable | src/ies/Common/IntegerPowTest.cpp:109-138 | LookupIntegerPow<10, 20>(exp) is 10^exp below 20 and 0 from 20 on |
| IntegerPowExamples.PowerOfThreeCompiles | src/ies/Common/IntegerPowTest.cpp:101-102 | the table behind LookupIntegerPow<3, 5> compiles |
| IntegerPowExamples.PowerOfSevenCompiles | src/ies/Common/IntegerPowTest.cpp:103-104 | the table behind LookupIntegerPow<7, 6> compiles |
| IntegerPowExamples.SmallLookups | src/ies/Common/IntegerPowTest.cpp:99-104 | LookupIntegerPow<3, 5>(4) is 81 and LookupIntegerPow<7, 6>(5) is 16807 |
| IntegerPowExamples.TenLookups | src/ies/Common/IntegerPowTest.cpp:105-144 | 10^12 and 10^19 are looked up exactly and LookupIntegerPow<10, 10>(10) is 0 |
| FastIntegerPow.LevelBound | src/ies/Common/FastIntegerPow.hxx:22-32 | the estimate bitWidth(N) + bitWidth(N*N)·(Exp-1)/2, or bitWidth(N*N)·Exp/2, bounds N^Exp from above by 2 to the estimate |
| FastIntegerPow.EstimateFits | src/ies/Common/FastIntegerPow.hxx:26-33 | an estimate of at most 64 bits guarantees N^Exp fits in a uint64 |
| FastIntegerPow.AsWrittenStep | src/ies/Common/FastIntegerPow.hxx:23-35 | when the as-written recursion compiles, its value is N times (odd) or equal to (even) the value for the wrapped N*N and Exp/2, truncated to 64 bits |
| FastIntegerPow.AsWrittenIsModular | src/ies/Common/FastIntegerPow.hxx:15-40 | every value the as-written CalculateIntegerPower produces is N^Exp modulo 2^64 |
| FastIntegerPow.CorrectedStep | src/ies/Common/FastIntegerPow.hxx:23-35 | when the corrected recursion compiles, the exact estimate is at most 64, the recursive call compiles, and the result is built from it without wrapping |
| FastIntegerPow.CalculateIntegerPowerIsExact | src/ies/Common/FastIntegerPow.hxx:15-40 | every value the corrected CalculateIntegerPower produces is exactly N^Exp |
| FastIntegerPow.AsWrittenEstimate | src/ies/Common/FastIntegerPow.hxx:22-32 | when the exact estimate is at most 64, the as-written estimate (wrapped N*N, `int` arithmetic) equals it |
| FastIntegerPow.SameValue | src/ies/Common/FastIntegerPow.hxx:15-40 | where both recursions compile they agree |
| FastIntegerPow.CorrectionOnlyRejects | src/ies/Common/FastIntegerPow.hxx:15-40 | whatever the corrected recursion accepts, the as-written one accepts with the same value |
| FastIntegerPow.ExponentOne | src/ies/Common/FastIntegerPow.hxx:23-39 | N^1 always compiles and is N |
| FastIntegerPow.ExponentOneAsWritten | src/ies/Common/FastIntegerPow.hxx:23-39 | as written too, N^1 always compiles and is N, since the estimate for Exp = 1 is N's own width |
| FastIntegerPow.ValueListCompiles | src/ies/Common/FastIntegerPow.hxx:47-55 | GenerateExpValueList<N, MaxExp> compiles iff N^i compiles for every i below MaxExp |
| FastIntegerPow.ValueListEntries | src/ies/Common/FastIntegerPow.hxx:47-55 | a compiled value list has MaxExp entries and entry i is N^i |
| FastIntegerPow.FastIntegerPowValue | src/ies/Common/FastIntegerPow.hxx:62-74 | FastIntegerPow compiles iff its value list does, returns N^exp below MaxExp and 0 at or above it |
| FastIntegerPow.FastIntegerPowAsWrittenValue | src/ies/Common/FastIntegerPow.hxx:62-74 | the as-written FastIntegerPow compiles iff every as-written entry does, returns that entry below MaxExp and 0 at or above it |
| FastIntegerPow.FastLookupCorrectionOnlyRejects | src/ies/Common/FastIntegerPow.hxx:62-74 | whatever the corrected FastIntegerPow returns, the as-written one returns too |
| FastIntegerPowExamples.TwoToTheTenth | src/ies/Common/FastIntegerPowTest.cpp:8-12 | CalculateIntegerPower<2, 10> is 1024 |
| FastIntegerPowExamples.SixteenSquared | src/ies/Common/FastIntegerPow.hxx:30-35 | the even branch: 16^2 is 256 |
| FastIntegerPowExamples.FourToTheFifth | src/ies/Common/FastIntegerPow.hxx:23-29 | the odd branch: 4^5 is 1024 |
| FastIntegerPowExamples.TwoToTheThirtyTwoSquaredWraps | src/ies/Common/FastIntegerPow.hxx:22-35 | (2^32)^2 overflows, yet as written N*N wraps to 0, the estimate is 0 and the result compiles to 0; the corrected model refuses it |
| FastIntegerPowExamples.TwoToTheThirtyTwoTable | src/ies/Common/FastIntegerPow.hxx:62-74 | FastIntegerPow<2^32, 3>(1) returns 2^32 as written although 2^64 in the table wraps; corrected, the table does not compile |
| FastIntegerPowExamples.SquaredTableFails | src/ies/Common/FastIntegerPow.hxx:47-55 | one failing entry makes the whole corrected value list fail |
| FastIntegerPowExamples.ZeroBaseAsWritten | src/ies/Common/FastIntegerPow.hxx:15-40 | 0^Exp compiles as written for every Exp, to 1 at 0 and to 0 otherwise |
| FastIntegerPowExamples.EstimateStoredInInt | src/ies/Common/FastIntegerPow.hxx:32-33 | 65536^(2^40) compiles to 0 as written because the `int` estimate wraps; the corrected model refuses it |
| FastIntegerPowExamples.EstimateWraps | src/ies/Common/FastIntegerPow.hxx:26-32 | the exact estimate 33·2^39 becomes 0 once stored in an `int` |
| FastIntegerPowExamples.SquareLevel | src/ies/Common/FastIntegerPow.hxx:30-35 | the inner level (2^32)^(2^39) compiles to 0 as written |
| FastIntegerPowExamples.PowerOfTenCompiles | src/ies/Common/FastIntegerPowTest.cpp:22-28 | 10^e compiles for every e below 19 |
| FastIntegerPowExamples.TenToTheNineteenRejected | src/ies/Common/FastIntegerPowTest.cpp:26 | 10^19 does not compile in either model, although it fits a uint64, because the estimate exceeds 64 |
| FastIntegerPowExamples.TenTableCompiles | src/ies/Common/FastIntegerPowTest.cpp:22-28 | the value list of powers of ten up to 19 entries compiles |
| FastIntegerPowExamples.PowersOfTenTable | src/ies/Common/FastIntegerPowTest.cpp:22-49 | FastIntegerPow<10, 19>(exp) is 10^exp below 19 and 0 from 19 on |
| FastIntegerPowExamples.TwentyPowersOfTenRejected | src/ies/Common/FastIntegerPowTest.cpp:26 | FastIntegerPow<10, 20> does not compile |
| FastIntegerPowExamples.PowerOfThreeCompiles | src/ies/Common/FastIntegerPowTest.cpp:16-17 | the value list behind FastIntegerPow<3, 5> compiles |
| FastIntegerPowExamples.Lookups | src/ies/Common/FastIntegerPowTest.cpp:14-55 | FastIntegerPow<3, 5>(4) is 81, FastIntegerPow<10, 15>(12) is 10^12 and FastIntegerPow<10, 10>(10) is 0 |
| SmartEnum.ToVector | src/ies/Common/SmartEnum.hxx:23-30 | a definition containing '=' is refused (assigned values are not supported); otherwise the enumerator names are the non-empty runs between ", " separators, none holding a separator, and together they spell the definition with its separators removed |
| SmartEnum.ToIndex | src/ies/Common/SmartEnum.hxx:180 | a non-negative enumerator keeps its value as an index; a negative one becomes a huge std::size_t, congruent to it modulo 2^64 |
| SmartEnum.Enumerators | src/ies/Common/SmartEnum.hxx:63-66 | the range holds Size() enumerators and the i-th is i |
| SmartEnum.FirstIndexOf | src/ies/Common/SmartEnum.hxx:187-191 | the search finds nothing iff the name is absent; otherwise it returns the first position holding the name |
| SmartEnum.FirstIndexOfDistinct | src/ies/Common/SmartEnum.hxx:187-191 | among distinct names, the search for the i-th name finds i |
| SmartEnum.SeparatorIsNeverAName | src/ies/Common/SmartEnum.hxx:29 | a string holding ',' or ' ' is never one of the enumerator names |
| SmartEnum.EnumImpl.constructor | src/ies/Common/SmartEnum.hxx:33-39 | a SmartEnum starts from its definition string and its declared size, with the cached range still empty |
| SmartEnum.EnumImpl.Max | src/ies/Common/SmartEnum.hxx:42-50 | Max() - Min() + 1 is Size() |
| SmartEnum.EnumImpl.CheckTrailingComma | src/ies/Common/SmartEnum.hxx:112-121 | passes iff the definition splits without error into exactly Size() names; a split into a different count fails with the trailing-comma error, and a definition error is passed on |
| SmartEnum.EnumImpl.ToString | src/ies/Common/SmartEnum.hxx:85-99 | succeeds iff the trailing-comma check passes; then it is empty exactly for enumerators outside [Min(), Max()] and is the enumerator's own name inside |
| SmartEnum.EnumImpl.ToRange | src/ies/Common/SmartEnum.hxx:52-69 | fails iff the trailing-comma check fails, leaving the cache alone; otherwise it returns, and caches, the enumerators 0 .. Size()-1 |
| SmartEnum.EnumImpl.Has | src/ies/Common/SmartEnum.hxx:71-83 | fails only for a definition with an assigned value; otherwise true iff the string is one of the enumerator names |
| SmartEnum.EnumImpl.ToEnum | src/ies/Common/SmartEnum.hxx:185-192 | To<Enum> fails with the trailing-comma error when the check fails; otherwise it returns the first enumerator whose name matches, and fails with "no enumerator named" when none does |
| SmartEnum.EnumImpl.ToEnumOfToString | src/ies/Common/SmartEnum.hxx:185-192 | with distinct names, looking up the name of a valid enumerator gives that enumerator back |
| SmartEnum.EnumImpl.ToStringOfToEnum | src/ies/Common/SmartEnum.hxx:185-192 | the enumerator found for a name prints as that name |
| SmartEnum.AbcNames | src/ies/Common/SmartEnumTest.cpp:13 | "A, B, C" splits into the names A, B and C |
| SmartEnum.MyEnumUsage | src/ies/Common/SmartEnumTest.cpp:22-84 | for MyEnum: Max() is 2 and Size() is 3, the names print as A, B and C, 4 prints as "", "A" is enumerator 0, and "C" is a name while "D" is not |
| SmartEnum.TrailingCommaRejected | src/ies/Common/SmartEnumTest.cpp:121-145 | "A, B, C," with size 4 yields three names and ToString fails with the trailing-comma error |
| SmartEnum.AssignedValueRejected | src/ies/Common/SmartEnumTest.cpp:36-49 | a definition with "B=2" makes ToString fail |
| FormatString.DetectContainerName | src/ies/StdUtil/FormatString.hxx:22-29 | std::array<T, N> is named "std::array<N>", each other supported container by its std:: name, and anything else "Unknown Container" |
| FormatString.ContainerNamesDistinct | src/ies/StdUtil/FormatString.hxx:22-29 | different container kinds (and arrays of different sizes) get different names |
| FormatString.FormatWith | src/ies/StdUtil/FormatString.hxx:88-105 | the loop builds the container name, "{", the formatted elements joined by ", ", then "}" |
| FormatString.AppendElement | src/ies/StdUtil/FormatString.hxx:97-102 | one loop step extends the joined prefix of i elements to i+1 elements, with ", " only after the first |
| FormatString.FormatStrings | src/ies/StdUtil/FormatString.hxx:39-55 | the string overload writes each element in double quotes between the braces |
| FormatString.FormatValues | src/ies/StdUtil/FormatString.hxx:57-76 | the simple-value overload writes each integer in decimal between the braces |
| FormatString.JoinCommaLength | src/ies/StdUtil/FormatString.hxx:46-52 | joining k > 0 pieces adds 2(k-1) characters of separators to their lengths; no pieces join to "" |
| FormatString.BracedShape | src/ies/StdUtil/FormatString.hxx:45-53 | the result starts with the name and "{", ends with "}", holds the join in between, and is name + "{}" for no elements |
| FormatString.RunsOfJoinComma | src/ies/StdUtil/FormatString.hxx:46-52 | pieces that are non-empty and hold no ',' or ' ' are recovered by splitting their join at ", " |
| FormatString.ValuesRoundTrip | src/ies/StdUtil/FormatString.hxx:57-76 | the text of formatted integers splits back into one decimal per element, each parsing to that element |
| FormatString.ArrayExample | src/ies/StdUtil/FormatStringTest.cpp:10-13 | std::array<int, 3>{3, 4, 5} formats as "std::array<3>{3, 4, 5}" |
| FormatString.DequeExample | src/ies/StdUtil/FormatStringTest.cpp:15-18 | the deque example formats as "std::deque{7, 5, 16, 8}" |
| FormatString.ForwardListExample | src/ies/StdUtil/FormatStringTest.cpp:20-23 | the forward_list of strings formats with quoted elements |
| FormatString.ListExample | src/ies/StdUtil/FormatStringTest.cpp:25-28 | the list of strings formats with quoted elements |
| FormatString.MapExample | src/ies/StdUtil/FormatStringTest.cpp:30-39 | the map with a custom entry formatter formats as "std::map{{"a", 3}, {"b", 4}, {"c", 5}}" |
| FormatString.SetExample | src/ies/StdUtil/FormatStringTest.cpp:41-44 | the set example formats as "std::set{3, 4, 5}" |
| FormatString.VectorExamples | src/ies/StdUtil/FormatStringTest.cpp:48-51 | an empty vector formats as "std::vector{}" and {1, 2, 3, 4} as "std::vector{1, 2, 3, 4}" |
| FormatString.StringVectorExample | src/ies/StdUtil/FormatStringTest.cpp:50 | a vector of "a" formats as "std::vector{"a"}" |
| FormatString.NestedExample | src/ies/StdUtil/FormatStringTest.cpp:52-54 | two empty vectors, formatted by FormatString itself, give "std::vector{std::vector{}, std::vector{}}" |
| FormatString.EmptyVectorText | src/ies/StdUtil/FormatStringTest.cpp:54 | the inner formatter turns an empty vector into "std::vector{}" |
| NumberText.NatToDigitsRoundTrip | src/ies/StdUtil/FormatString.hxx:71 | a natural number's digit string in any base is non-empty, has no leading zero, and reads back as the number |
| NumberText.IntToStringRoundTrip | src/ies/StdUtil/FormatString.hxx:71 | std::to_string of an integer starts with '-' iff it is negative, is otherwise decimal digits, and parses back to the integer |
| NumberText.HexByteRoundTrip | src/ies/Common/Byte.cpp:65 | a byte prints as exactly two hexadecimal digits that read back as the byte |

## Left out

- Error message text: every exception is modelled as an error kind (`TreeError`, `EnumError`, `StaticAssert`, ...), not as its message; `RenameNode`'s message concatenation (src/ies/Common/StringTree.cpp:194-199) has no counterpart.
- StringTreeObject.StringTree.RemoveLevel: the splice and level-shift loops (StringTree.cpp:382-412) are not modelled step by step; the new state is assigned from the value model `StringTreeRemoveLevel.RemoveLevel`, whose effect `SqueezedEffect` states.
- StringTreeText.ToString: stated as a ghost function that specifies the text; the appending loops are the method `StringTreeObject.ToString`, proved to produce it.
- StringTreeText.FromSpec: the spec constructor's two loops (StringTree.cpp:43-60) are modelled as recursion over the groups and the names of a group, not as a method on the object.
- StringTreeRoundTrip.CanonicalRoundTrip: requires plain names (no `{`, `}`, `,`, space or `[`); names holding them cannot be read back by the spec parser, and that failure is not modelled.
- RecursiveReplace.RecursiveReplace: requires that the loop ends (`from` empty, absent, or not contained in `to`); on other inputs the source loops for ever, which `NeverEnds` proves and `RecursiveReplaceChecked` reports as `None`.
- FormatString.FormatValues: elements are integers; double elements formatted with `std::to_string` (FormatStringTest.cpp:48-49) are not modelled (floating point).
- Levenshtein.DamerauLevenshtein: the normalised similarity factor (src/ies/String/Levenshtein.cpp:54-63) is floating point and is not modelled; the integer distance is.
- IntRangeUtil.FindOverlappingPortion: returns the overlap size and the subject size instead of their floating-point ratio (src/ies/Common/IntRangeUtil.cpp:21).
- ReverseEqualRange.ReverseLowerBound: the elements are integers under their usual order; the templates accept any type with `operator<`, such as the strings of ReverseEqualRangeTest.cpp, and the model does not instantiate them for other types (the map overloads are modelled on integer keys).
- Endian: the float and double reads (src/ies/Common/EndianTest.cpp:71-101) are floating point and not modelled; the host's little-endian memory and `reinterpret_cast` are modelled directly as byte reversal.
- MapApply: the double-valued test (src/ies/StdUtil/MapApplyTest.cpp:72-89) is floating point and not modelled.
- AdditionOrdered: keys are an opaque equality type and the stored pointer is a map lookup; pointer identity and hashing are not modelled. Reserve hints only preallocate and are left out.
- IntegralRange: the element type is a mathematical integer, so the unsigned wrap-around of the reverse-iteration end sentinel `begin-1` (src/ies/Common/IntegralRange.hxx:212-215) is not modelled.
- SmartEnum: the `IES_SMART_ENUM` macro expansion and `VariadicSize.hpp` argument counting are compile-time machinery; the model takes the definition string and the size as given. `GetName` and the `Color` formatting test (FormatStringTest.cpp:57-63) depend on the macro and are left out.
- Find.hxx and IsIn.hxx are thin wrappers over the standard library; `Find` and `HasNode` are modelled as map, set or sequence membership.
- Timing code (src/ies/Time), ownership and type-trait files, and the test and benchmark applications carry no logic worth verifying here and are not part of this model.
- Static caches (`ToRange`'s vector, the lookup tables of `LookupIntegerPow` and `FastIntegerPow`, `ToStringVector`) are modelled as fields or recomputed values; initialisation order and thread safety of function-local statics are not modelled.

## Findings

| source | as written | input that shows it | evidently intended | confidence | as-written member | corrected member |
|---|---|---|---|---|---|---|
| src/ies/Common/IntegerPow.hxx:53-62 | when bit_width(N*N-1) is at most 8 the odd branch skips both checks and multiplies N by the recursive result, which can wrap | `CalculateIntegerPow<11, 19>()` compiles to 5818858227285891443 although 11^19 > 2^64 | every value that compiles is exactly N^Exp | not executed | IntegerPowExamples.ElevenToTheNineteenWraps | IntegerPow.CalculateIntegerPowIsExact |
| src/ies/Common/IntegerPow.hxx:29-72 | `N*N-1` is computed in uint64 and wraps before its width is measured, so a huge N looks narrow | `CalculateIntegerPow<2^64-1, 2>()` and `LookupIntegerPow<2^64-1, 3>(2)` give 1 | such an N is refused | not executed | IntegerPowExamples.MaxTableWraps | IntegerPow.LookupCorrectionOnlyRejects |
| src/ies/Common/FastIntegerPow.hxx:22-35 | `bit_width(N*N)` is taken of the wrapped product, which is 0 for N = 2^32 | `CalculateIntegerPower<2^32, 2>()` compiles to 0, and `FastIntegerPow<2^32, 3>(1)` compiles although the table holds a wrapped 2^64 | N^Exp beyond uint64 is refused | not executed | FastIntegerPowExamples.TwoToTheThirtyTwoTable | FastIntegerPow.FastLookupCorrectionOnlyRejects |
| src/ies/Common/FastIntegerPow.hxx:26-32 | the uint64 estimate is stored in a 32-bit `int`, which wraps | `CalculateIntegerPower<65536, 2^40>()`: the estimate 33·2^39 becomes 0 and the result compiles to 0 | the estimate is compared unwrapped | not executed | FastIntegerPowExamples.EstimateStoredInInt | FastIntegerPow.CalculateIntegerPowerIsExact |
| src/ies/Common/StringTree.cpp:162-169 | `RenameNode` checks only that `from` exists and `to` does not, so it accepts the empty name `to == ""` | `RenameNodes({{b, ""}})` on a tree holding `b`: the tree becomes malformed and b's children report "" as their parent | "" is refused as a name, as `CreateChildNode` and the constructor refuse it | not executed | StringTreeRename.RenameNodesToNullName | StringTreeRename.RenameAllAsWrittenAgrees |
| src/ies/Common/IntegralRangeList.hxx:74-80 | `AddRange` stores an empty range whenever it has space, overwriting an entry with the same begin | adding [2, 2) to the list {[2, 5)} leaves {[2, 2)}, and 3 is no longer covered | an empty range adds nothing | not executed | IntegralRangeList.AddRangeAsWrittenLosesCoverage | IntegralRangeList.RangeList.AddRange |
| src/ies/String/RecursiveReplace.cpp:9-15 | the loop searches forward from the last replacement, so an occurrence formed before it stays | `RecursiveReplace("aabb", "ab", "b")` gives "abb", which still holds "ab" | no occurrence is left (RecursiveReplace.hpp:10) | not executed | RecursiveReplace.OccurrenceLeftBehind | RecursiveReplace.ReplacedEverywhere |
| src/ies/String/RecursiveReplace.cpp:9-15 | when `to` contains `from` every replacement creates a new occurrence and the loop never ends | `RecursiveReplace(s, "a", "aa")` with s holding "a" | the call ends, or the input is refused | not executed | RecursiveReplace.NeverEnds | RecursiveReplace.RecursiveReplaceChecked |
