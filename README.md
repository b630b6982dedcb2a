# Skip list lattice

This project models the skip list of `AlgorithmLibrary/SkipList.js` (an
animated data-structure demo) and proves that its link manipulations keep
it a skip list. The list is a lattice of nodes with four links each (`left`,
`right`, `up`, `down`). Every layer runs from a left sentinel to a right
sentinel with strictly increasing keys in between. Every copy of a key above
the bottom layer points down at the copy of the same key one layer below,
which points back up. `root` is the left sentinel of the top layer.

Modelled operations:
- `compareKeys`, the comparator that puts the two sentinels below and above every number;
- `endOfLayer`;
- `reset`;
- `search`, which goes right while the next key is at most the target, then down;
- `lookup`;
- `insert`, which splices the key into the bottom layer and promotes it while `random()` says so. Walking left to a node with a copy above, it adds a new top layer when it runs out of layers;
- `remove`, which unlinks every copy of the key by following `up` links;
- the forced-count state machine of `random`.

How the model is built:
- **Nodes.** The heap of JavaScript objects becomes an arena `nodes: seq<Node>` inside the class `SkipLists.SkipList`. A link is an `Option<nat>` index into the arena.
- **Ghost state.** The ghost field `rows` lists the nodes of each layer, bottom first. The ghost map `level` records each node's layer.
- **Abstract value.** `Contents()` is `seq<seq<Key>>`, the keys of each layer.
- **Specifications.** `insert` and `remove` are specified by the value-level functions `SortedLayers.Added` and `SortedLayers.Erase`. Their properties are proved as lemmas in `layers.dfy`.

Files:
- `keys.dfy` (module `Keys`): the key type and `compareKeys`.
- `promotion.dfy` (module `Promotion`): the policy of `random`, and how many promotions one insertion performs.
- `layers.dfy` (module `SortedLayers`): sorted layers and whole lattices as values, and what insert and remove do to them.
- `lattice.dfy` (module `Lattice`): the arena, the invariant `WellFormed`, the abstraction `View`, and the facts search relies on.
- `splice.dfy` (module `Splicing`): one round of insert's loop, which links a new copy into layer h.
- `raise.dfy` (module `Raising`): the new top layer insert adds.
- `unlink.dfy` (module `Unlinking`): one round of remove's loop.
- `skiplist.dfy` (module `SkipLists`): the `SkipList` class with its methods and loops, and `endOfLayer`.

## Model

| member | source | states |
|---|---|---|
| Keys.CompareKeys | AlgorithmLibrary/SkipList.js:85-105 | the result is -1, 0 or 1; 0 only for two equal numbers; on two numbers 0 exactly when they are equal |
| Keys.SentinelComparisons | AlgorithmLibrary/SkipList.js:88-95 | the left sentinel as first argument gives -1 (also against itself), the right sentinel gives 1; a number against the left sentinel gives 1 and against the right sentinel -1 |
| Keys.CompareAntisymmetric | AlgorithmLibrary/SkipList.js:97-104 | on two numbers the comparator is antisymmetric and answers -1 exactly when the first is smaller |
| Keys.CompareAgreesWithOrder | AlgorithmLibrary/SkipList.js:85-105 | when one side is a number, the comparator's sign agrees with the order left sentinel < numbers < right sentinel, in all three directions |
| Keys.BeforeIsStrictTotal | AlgorithmLibrary/SkipList.js:85-105 | that order is irreflexive, asymmetric, transitive and total |
| Promotion.RandomStep | AlgorithmLibrary/SkipList.js:53-81 | a positive count is spent one promotion at a time and sets FLAG; an answer of false leaves the count 0 and FLAG clear; with count 0 and FLAG clear the coin decides and nothing changes |
| Promotion.PromotionsStep | AlgorithmLibrary/SkipList.js:59-70 | one call of random() either takes one promotion off those still to come or ends the run with count 0 and FLAG clear |
| Promotion.ForcedPromotions | AlgorithmLibrary/SkipList.js:59-64 | with count N > 0 an insertion promotes exactly N times, whatever the coins and FLAG |
| Promotion.FlagStops | AlgorithmLibrary/SkipList.js:66-70 | right after a forced run (count 0, FLAG set) the next call answers false |
| Promotion.CoinPromotions | AlgorithmLibrary/SkipList.js:72-81 | with count 0 and FLAG clear an insertion promotes once per leading true coin |
| Promotion.LeadingTrue | AlgorithmLibrary/SkipList.js:72-81 | the number of leading true coins: all coins before it are true and the next one, if any, is false |
| SortedLayers.InsertSorted | AlgorithmLibrary/SkipList.js:404-409 | adding a key absent from a sorted layer keeps it sorted, and its members are the old ones plus the key |
| SortedLayers.InsertCounts | AlgorithmLibrary/SkipList.js:404-409 | adding a key to a layer adds exactly one occurrence of it, as a multiset |
| SortedLayers.InsertMembers | AlgorithmLibrary/SkipList.js:404-409 | the members after adding are the key and the old members |
| SortedLayers.InsertBetween | AlgorithmLibrary/SkipList.js:404-409 | a key strictly between positions a and a + 1 of a layer bounded by sentinels lands right after a, and the layer stays bounded |
| SortedLayers.InsertAt | AlgorithmLibrary/SkipList.js:404-409 | in a sorted layer, a key just after position i goes right after position i |
| SortedLayers.WithoutSorted | AlgorithmLibrary/SkipList.js:499-500 | taking a key out of a sorted layer keeps it sorted, and its members are the old ones except the key |
| SortedLayers.WithoutCounts | AlgorithmLibrary/SkipList.js:499-500 | taking a key out removes every occurrence of it and nothing else, as a multiset |
| SortedLayers.WithoutBetween | AlgorithmLibrary/SkipList.js:499-500 | taking out the key at an inner position of a bounded layer drops exactly that position and keeps the layer bounded |
| SortedLayers.WithoutAt | AlgorithmLibrary/SkipList.js:499-500 | in a sorted layer, taking out the key at position i drops exactly position i |
| SortedLayers.WithoutMissing | AlgorithmLibrary/SkipList.js:486-490 | taking out a key that is not there changes nothing |
| SortedLayers.WithoutInsert | AlgorithmLibrary/SkipList.js:367-515 | removing a key right after adding it to a layer gives back the layer |
| SortedLayers.InsertWithout | AlgorithmLibrary/SkipList.js:367-515 | adding back a key just removed from a sorted layer gives back the layer |
| SortedLayers.SortedOnce | AlgorithmLibrary/SkipList.js:404-409 | a sorted layer holds each of its keys exactly once |
| SortedLayers.AddedBottom | AlgorithmLibrary/SkipList.js:404-409 | insert's bottom layer is the old bottom layer with the key added |
| SortedLayers.GrowStep | AlgorithmLibrary/SkipList.js:402-419 | one more round of insert's loop adds the key to the next layer up |
| SortedLayers.GrowTop | AlgorithmLibrary/SkipList.js:449-462 | a new top layer adds an empty layer (just the two sentinels) above the others |
| SortedLayers.AddedShape | AlgorithmLibrary/SkipList.js:402-471 | insert of an absent key keeps every layer bounded and sorted and nested in the one below. The key ends up on exactly the lowest 1 + promotions layers, once in the bottom one. The layers above those keep their keys. The height becomes the larger of the old height and the number of copies |
| SortedLayers.AddedNested | AlgorithmLibrary/SkipList.js:412-416 | after insert, every key of a layer is also on the layer below |
| SortedLayers.EraseShape | AlgorithmLibrary/SkipList.js:496-504 | remove keeps every layer bounded, sorted and nested, keeps the number of layers, and leaves the key on none |
| SortedLayers.EraseAbsent | AlgorithmLibrary/SkipList.js:497-504 | once the key is missing from layer m it is missing above, so erasing it below m erases it everywhere (why following up links suffices) |
| SortedLayers.EraseAdded | AlgorithmLibrary/SkipList.js:367-515 | remove right after insert of an absent key gives back the old layers, plus the empty layers insert created, which are not pruned |
| SortedLayers.InLower | AlgorithmLibrary/SkipList.js:412-416 | a key on some layer is on every layer below it |
| SortedLayers.SentinelsAtEnds | AlgorithmLibrary/SkipList.js:192-193 | a sorted layer holding both sentinels starts with the left one and ends with the right one |
| Lattice.ViewShape | AlgorithmLibrary/SkipList.js:402-471 | the keys of a well-formed lattice form layers that are bounded, sorted and nested |
| Lattice.FloorDecides | AlgorithmLibrary/SkipList.js:353-364 | where search stops, the key is in the bottom layer exactly when the node there holds it |
| Lattice.DownLink | AlgorithmLibrary/SkipList.js:319-324 | a node has a down link exactly when it is above the bottom layer |
| Lattice.Below | AlgorithmLibrary/SkipList.js:323-324 | the down link leads to the same key on the layer below |
| Lattice.Above | AlgorithmLibrary/SkipList.js:503 | an up link leads to the same key on the layer above |
| Lattice.LeftSentinelHasUp | AlgorithmLibrary/SkipList.js:430-436 | a left sentinel lacks an up link only on the top layer, so the walk left ends at a node with an up link or at the top's left sentinel |
| Lattice.PastAbove | AlgorithmLibrary/SkipList.js:468-469 | going up from the nearest node left of the new copy that has a copy above lands just left of where the key belongs on the layer above |
| Lattice.RowOrder | AlgorithmLibrary/SkipList.js:306 | keys strictly increase along a layer |
| Lattice.RowLinks | AlgorithmLibrary/SkipList.js:306-316 | inside a layer, right and left links lead to the neighbouring positions |
| Splicing.SpliceStart | AlgorithmLibrary/SkipList.js:374-380 | when search did not stop on the key, the key goes right after the node search stopped on, on the bottom layer |
| Splicing.SpliceLinks | AlgorithmLibrary/SkipList.js:404-409 | p1 and its right neighbour are distinct, linked, and apart from the copy below |
| Splicing.SpliceRowKeys | AlgorithmLibrary/SkipList.js:404-409 | the keys of the layer spliced into gain the key in its sorted place |
| Splicing.SpliceRowLinks | AlgorithmLibrary/SkipList.js:404-409 | the layer spliced into stays doubly linked from sentinel to sentinel |
| Splicing.SpliceRow | AlgorithmLibrary/SkipList.js:404-409 | the layer spliced into stays a layer, and its keys are the old ones with the key added |
| Splicing.SpliceOthers | AlgorithmLibrary/SkipList.js:404-416 | every other layer keeps its keys and horizontal links |
| Splicing.SpliceDown | AlgorithmLibrary/SkipList.js:412-416 | after the splice every node above the bottom has a down link to the same key, which points back up |
| Splicing.SpliceUp | AlgorithmLibrary/SkipList.js:412-416 | after the splice every up link leads to the same key one layer up, which points back down |
| Splicing.SpliceTop | AlgorithmLibrary/SkipList.js:404-416 | the top layer still has no up links and the root stays its first node |
| Splicing.SpliceKeeps | AlgorithmLibrary/SkipList.js:404-416 | linking the new copy keeps the lattice well formed, adds the key to layer h of the abstract value, and gives the new copy no up link |
| Splicing.SpliceAbove | AlgorithmLibrary/SkipList.js:429-469 | after the walk left and up, the next copy's position on layer h + 1 is ready to splice into, above the new copy |
| Splicing.AddedBottomRow | AlgorithmLibrary/SkipList.js:385 | insert adds exactly one node to the bottom layer, matching the increment of size |
| Splicing.SpliceEnter | AlgorithmLibrary/SkipList.js:400-402 | insert's loop starts on the bottom layer with no copy below and the lattice unchanged |
| Raising.RaiseRows | AlgorithmLibrary/SkipList.js:449-456 | with the new top layer the arena still forms layers, and their keys are the old layers plus the empty layer on top |
| Raising.RaiseKeeps | AlgorithmLibrary/SkipList.js:449-462 | the new top layer keeps the lattice well formed, its left sentinel is the new root, and the abstract value gains one empty layer |
| Raising.RaiseFrame | AlgorithmLibrary/SkipList.js:453-456 | the old top's left sentinel gains its up link; the old top's inner nodes are untouched |
| Unlinking.UnlinkPlace | AlgorithmLibrary/SkipList.js:499-500 | the copy to unlink sits strictly inside its layer, between its two neighbours |
| Unlinking.UnlinkRowKeys | AlgorithmLibrary/SkipList.js:499-500 | the keys of the layer unlinked from lose the key and keep their order |
| Unlinking.UnlinkRowLinks | AlgorithmLibrary/SkipList.js:499-500 | the layer unlinked from stays doubly linked from sentinel to sentinel |
| Unlinking.UnlinkRow | AlgorithmLibrary/SkipList.js:499-500 | the layer unlinked from stays a layer whose keys are the old ones without the key |
| Unlinking.UnlinkOthers | AlgorithmLibrary/SkipList.js:499-500 | every other layer keeps its keys and horizontal links |
| Unlinking.UnlinkTopmost | AlgorithmLibrary/SkipList.js:503 | if the unlinked copy has no up link, the key is not on layer m + 1 (and so, by nesting, on no layer above) |
| Unlinking.UnlinkKeeps | AlgorithmLibrary/SkipList.js:497-504 | one unlink keeps the lattice linked, except that the next copy up may lack its copy below, and takes the key out of layer m |
| Unlinking.UnlinkNext | AlgorithmLibrary/SkipList.js:503 | the up link of the unlinked copy leads to the key's copy strictly inside the next layer |
| Unlinking.UnlinkStep | AlgorithmLibrary/SkipList.js:497-504 | one round of remove's loop: the key is gone from layers 0..m and the up link gives the next copy, or the key is not on layer m + 1 |
| Unlinking.UnlinkEnter | AlgorithmLibrary/SkipList.js:485-497 | remove's loop starts at the bottom copy of the key with nothing erased |
| Unlinking.UnlinkExit | AlgorithmLibrary/SkipList.js:497-504 | when remove's loop ends the lattice is well formed again and its value is the old one with the key erased |
| SkipLists.EndOfLayer | AlgorithmLibrary/SkipList.js:108-114 | following right links from any node of a layer ends at the layer's last node |
| SkipLists.WalkRight | AlgorithmLibrary/SkipList.js:299-317 | the walk right ends on a node whose key is at most the target and whose right neighbour's key is above it |
| SkipLists.SkipList.constructor | AlgorithmLibrary/SkipList.js:139-149 | a new skip list is valid and empty, with no forced promotions and FLAG clear |
| SkipLists.SkipList.Reset | AlgorithmLibrary/SkipList.js:186-193 | reset leaves one layer holding only the two sentinels, root at the left one, size 0 |
| SkipLists.SkipList.Random | AlgorithmLibrary/SkipList.js:49-82 | one call of random() updates the count and FLAG and answers as RandomStep says |
| SkipLists.SkipList.Search | AlgorithmLibrary/SkipList.js:288-330 | search stops on a node of the bottom layer and stores it in currNode. That node's key is at most the target or is the left sentinel, and the key of its right neighbour is above the target. Only currNode changes, and the skip list stays valid |
| SkipLists.SkipList.Lookup | AlgorithmLibrary/SkipList.js:353-364 | lookup reports found exactly when the key is in the bottom layer |
| SkipLists.SkipList.Insert | AlgorithmLibrary/SkipList.js:367-476 | insert reports an insertion exactly when the key was absent. If present, the links, root, contents, size and promotion state are unchanged. If absent, the contents become Added(old, key, 1 + promotions), size grows by 1, and the count is spent with FLAG clear |
| SkipLists.SkipList.InsertFresh | AlgorithmLibrary/SkipList.js:382-471 | the insertion of an absent key: contents become Added(old, key, 1 + promotions) and size grows by one |
| SkipLists.SkipList.SpliceCopies | AlgorithmLibrary/SkipList.js:400-471 | insert's loop leaves the lattice well formed with the key on exactly 1 + promotions layers |
| SkipLists.SkipList.SpliceRound | AlgorithmLibrary/SkipList.js:402-471 | one round of insert's loop either finishes the insertion, with the key on 1 + promotions layers and the count spent, or hands the next layer up to the loop: the copy just made is the one below, and one promotion fewer remains |
| SkipLists.SkipList.SpliceFlip | AlgorithmLibrary/SkipList.js:403-427 | a copy goes into layer h, then random() decides: promote means promotions remain, stop means the insertion is complete |
| SkipLists.SkipList.SpliceStep | AlgorithmLibrary/SkipList.js:403-416 | linking one copy into layer h keeps the lattice well formed and adds the key to layer h only |
| SkipLists.SkipList.ClimbGrow | AlgorithmLibrary/SkipList.js:429-469 | after the walk left and up, the loop's state holds for layer h + 1, with the copy just made as the one below |
| SkipLists.SkipList.Climb | AlgorithmLibrary/SkipList.js:429-469 | the walk left and up reaches the node of layer h + 1 after which the next copy goes. The contents are unchanged, or gain one empty top layer when h was the top |
| SkipLists.SkipList.WalkLeft | AlgorithmLibrary/SkipList.js:430-467 | going left stops at the nearest node with an up link. At the top's left sentinel a new empty top layer is added first, and only then |
| SkipLists.SkipList.LinkNode | AlgorithmLibrary/SkipList.js:404-416 | the new node is linked between p1 and p1's old right neighbour in both directions, and to the copy below in both directions |
| SkipLists.SkipList.AddLayer | AlgorithmLibrary/SkipList.js:449-462 | two new sentinels linked to each other and down to the ends of the old top layer; the left one becomes root |
| SkipLists.SkipList.Remove | AlgorithmLibrary/SkipList.js:479-515 | remove reports a removal exactly when the key was present, and the contents become Erase(old, key). When the key is absent, the arena, the layers and the contents are unchanged. By EraseShape the key is then on no layer and the number of layers is the same. Root and size are outside what remove may change |
| SkipLists.SkipList.UnlinkCopies | AlgorithmLibrary/SkipList.js:496-504 | remove's loop leaves the lattice well formed with the key erased from every layer |
| SkipLists.SkipList.UnlinkRound | AlgorithmLibrary/SkipList.js:497-504 | one round of remove's loop unlinks the copy on layer m and follows its up link, keeping the loop's state for m + 1 |
| SkipLists.SkipList.Unlink | AlgorithmLibrary/SkipList.js:499-500 | the node's left neighbour now points right to its right neighbour and back |

## Left out

- Rendering and animation are not modelled: the canvas, `cmd`, the command lists, `nodeToCanvas`, `connect`, `disconnect`, `setMessage`, `flashNode`, `markAllNodesInactive`, the banner and the node `x`/`y`/`id` fields. None of them touch the links.
- The `ind` and `layer` display fields and the loops that shift them (392-397, 440-445, 506-511) are not modelled. They only feed canvas coordinates.
- The UI plumbing (`init`'s controls, the callbacks and `parseInt` of text fields, `disableUI`/`enableUI`) is not modelled. Keys are unbounded integers.
- Random: `Math.random()` and the probability field (with its `alert`) are replaced by a supplied coin: `Insert` takes `coins`, and call j of `random()` sees `coins[j]`, or false past the end. The `parseInt`/NaN handling of the count field is not modelled; the count is a `nat` field `forced`.
- Insert: every modelled insert stops, because the coin sequence is finite and false past its end. The source's insert never stops when the probability field is 1.0: line 76 accepts that value, and `Math.random() < 1.0` at line 81 is always true, so the loop of lines 402-471 keeps adding layers. The model does not capture that endless run. `CoinPromotions` shows that the number of promotions is the leading run of true coins.
- The global `SkipList.FLAG` becomes the field `flag` of the one skip list.
- The JavaScript heap becomes an index arena. Nodes unlinked by remove stay in the arena, unreachable from the root, just as the objects stay alive while referenced. Aliasing between skip lists is not modelled.
- `rows`, `level` and `Contents` are ghost: the source keeps no such lists.
- In insert, the call of `endOfLayer` happens before the new sentinels are linked rather than during it. It follows only right links, which that linking does not change.
- Search: `currNode` is stored as a link. The search loop's per-step highlighting is not modelled.
- Size: `remove` never decreases `size` (as in the source). The model states only that size is at least the number of keys, not any equality.
- Empty upper layers left by remove are kept, as in the source.
