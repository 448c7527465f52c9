# RubyTree in Dafny

A Dafny model of RubyTree 0.6.2, an in-memory tree of named nodes with
ordered children. Every `TreeNode` keeps three things in step:
- an ordered child array;
- an index from child names to children;
- a link to its parent.

The model covers:
- the mutating node API;
- the metrics and traversals;
- navigation, including siblings and `[]` by position or name;
- the `<=>` order;
- the binary and binary-search-tree subclasses;
- the nested-hash and JSON-object codecs;
- the two flat record codecs: `marshal_dump`/`marshal_load`, and the older `"|"`/`"\n"` text dump;
- the `underscore` rewrite from camelCase to snake_case.

Layout, one module per file:

- `wrappers.dfy` (`Wrappers`) holds `Option`, `Result` and the error kinds the library raises.
- `names.dfy` (`Names`) holds node names, the string order `Less` and `<=>` (`Spaceship`).
- `tree_value.dfy` (`TreeValue`) holds the tree as a value, `Node(name, content, kids)`. It has:
  - `size`, `nodeHeight`, pre-order `each`, `each_leaf`;
  - `breadth_each` as a FIFO queue loop;
  - `<<` on values.
- `node_core.dfy` (`NodeCore`) holds the `Arena` class, a map from node identities to node records (name, content, parent, child slots, name index). Its methods are the in-place operations of `lib/tree.rb`. Each is proved against a specification function on maps (`AddSpec`, `RemoveSpec`, `RemoveAllSpec`), together with the invariants those functions keep. Parent chains, `root`, `parentage`, `nodeDepth`, `breadth`, the sibling queries and `[]` are also here, with `Abs` reading a subtree off the arena as a value.
- `node_abs.dfy` (`NodeAbs`) reads arena subtrees as tree values. It proves that `add`, `remove!` and `removeAll!` on the arena are `<<`, deletion and emptying on those values, and that each leaves the other subtrees unchanged.
- `binary_tree.dfy` (`BinaryTree`) and `bst.dfy` (`Bst`) hold the two-slot subclasses, as methods on an `Arena`.
- `hash_converter.dfy` (`HashConverter`) and `json_converter.dfy` (`JsonConverter`) hold the encoders, decoders and round trips.
- `flat_records.dfy` (`FlatRecords`) holds the records of `marshal_dump`. Their replay by `marshal_load` is a loop over a name registry, and the tree is read back from the replay. It also holds the round trip for unique names and the misload for a repeated name.
- `dump_text.dfy` (`DumpText`) holds the text form of the older `rubytree/lib/tree.rb`: record lines, `String#split`, the `loadDumpRep` loop and its round trip.
- `legacy_tree.dfy` (`LegacyTree`) holds the older `siblings`. The older file's other methods have the same bodies as the `NodeCore` and `TreeValue` members.
- `underscore.dfy` (`CamelToSnake`) holds `underscore`, one function per rewrite step. A Dafny string is a value, so the argument is never changed.

Node content is a type parameter. Where Ruby's nil matters (the converters), content is `Option<C>`. Nil child slots, written by the binary setters, are `None` entries of the child array.

## Model

| member | source | states |
|---|---|---|
| Names.Spaceship | lib/tree.rb:499-502 | `<=>` is +1 against nil or a smaller name, 0 for an equal name, -1 for a larger name |
| Names.SpaceshipAntisymmetric | lib/tree.rb:499-502 | comparing two named nodes either way gives opposite signs |
| Names.Less | lib/tree.rb:499-502 | the string order that `<=>` uses: a name is never below itself, and a proper prefix is below the longer name |
| Names.LessIrreflexive | lib/tree.rb:499-502 | no name is below itself |
| Names.LessAsymmetric | lib/tree.rb:499-502 | two names are never each below the other |
| Names.LessTransitive | lib/tree.rb:499-502 | the name order is transitive |
| Names.LessTotal | lib/tree.rb:499-502 | of two different names one is below the other, so BST placement is always decided |
| NodeCore.Arena.NewNode | lib/tree.rb:141-149 | a nil name raises and changes nothing; otherwise a new node is a root with no children and an empty index, and no other node changes |
| NodeCore.FreshNode | lib/tree.rb:141-149 | a new node is a one-node tree: size 1, height 0, depth 0, breadth 1, array and index in step |
| NodeCore.Arena.DetachedCopy | lib/tree.rb:153-155 | the copy is a new root with the original's name and content, no children and an empty index |
| NodeCore.Arena.Add | lib/tree.rb:199-222 | a name already in the receiver's index raises and changes nothing; otherwise the child is appended last, indexed under its name, given the receiver as parent and returned, and no other node changes (a previous parent still lists it) |
| NodeCore.AddKeepsClosed | lib/tree.rb:215-222 | after `add` every parent link and child slot still refers to an existing node |
| NodeCore.AddKeepsInStep | lib/tree.rb:215-222 | `add` of a name new to the receiver keeps every node's array and index in step |
| NodeCore.AddKeepsIndexListed | lib/tree.rb:215-222 | after `add` every indexed child of the receiver is in its array |
| NodeCore.AddKeepsListedIndexed | lib/tree.rb:215-222 | after `add` every child in the receiver's array is indexed under its name |
| NodeCore.AddKeepsParentsList | lib/tree.rb:215-222 | `add` keeps every parent listing its children |
| NodeCore.AddKeepsOldListing | lib/tree.rb:215-222 | a child moved by `add` stays in its former parent's array while its parent link names the new parent |
| NodeCore.Arena.Remove | lib/tree.rb:233-238 | the child's array entries and its name's index entry are deleted, the child becomes a root and is returned, and no other node changes |
| NodeCore.RemoveKeepsClosed | lib/tree.rb:233-238 | after `remove!` every link still refers to an existing node |
| NodeCore.RemoveKeepsInStep | lib/tree.rb:233-238 | `remove!` of the child indexed under its name keeps every node's array and index in step |
| NodeCore.RemoveKeepsIndexListed | lib/tree.rb:233-238 | after `remove!` every indexed child is still in the array |
| NodeCore.RemoveKeepsListedIndexed | lib/tree.rb:233-238 | after `remove!` every child left in the array is still indexed |
| NodeCore.RemoveKeepsParentsList | lib/tree.rb:233-238 | `remove!` keeps every parent listing its children |
| NodeCore.RemoveStrangerUnindexes | lib/tree.rb:233-238 | `remove!` of a node that is not a child but shares a child's name deletes that child's index entry while the child stays in the array |
| NodeCore.AddThenRemove | lib/tree.rb:215-238 | `remove!` undoes `add` of a new child: the receiver and every other node are as before, and the child is a root |
| NodeCore.Arena.RemoveFromParent | lib/tree.rb:245-247 | on a root nothing changes and nil is returned; otherwise it is the parent's `remove!` of the receiver |
| NodeCore.Arena.RemoveAll | lib/tree.rb:252-259 | a loop makes every child a root, then the array and the index are emptied and the receiver is returned |
| NodeCore.RemoveAllEffect | lib/tree.rb:252-259 | after `removeAll!` the receiver has no children and an empty index, every former child is a root, and every other node is unchanged |
| NodeCore.RemoveAllKeepsParentsList | lib/tree.rb:252-259 | `removeAll!` keeps every parent listing its children |
| NodeCore.RemoveAllKeepsClosed | lib/tree.rb:252-259 | after `removeAll!` every link still refers to an existing node |
| NodeCore.ChainShape | lib/tree.rb:170-181 | the ancestor chain starts at the parent, follows parent links one by one and ends at a parentless node; it is empty exactly for a root |
| NodeCore.Arena.Parentage | lib/tree.rb:170-181 | nil for a root, else the ancestor chain from the parent up to the root, collected by a loop |
| NodeCore.RootOfParent | lib/tree.rb:407-411 | the root is a parentless node; a root is its own root, and a node has its parent's root |
| NodeCore.RootOf | lib/tree.rb:407-411 | the root reached from a node is a parentless node of the arena, and a root is its own root |
| NodeCore.Arena.Root | lib/tree.rb:407-411 | the parent-link loop stops at the receiver's root, a parentless node |
| NodeCore.NodeDepth | lib/tree.rb:562-565 | the depth is the length of the ancestor chain, so it is 0 exactly for a root |
| NodeCore.Breadth | lib/tree.rb:594-596 | a root has breadth 1; a node its parent lists has breadth at least 1 |
| NodeCore.Siblings | lib/tree.rb:457-469 | the block-less `siblings` is nil exactly for a root; otherwise it leaves out the receiver and has no more entries than the parent's array |
| NodeCore.Without | lib/tree.rb:457-469 | `Array#delete` leaves no entry equal to the deleted one and never lengthens the array |
| NodeCore.FirstSibling | lib/tree.rb:422-424 | a root is its own first sibling; otherwise the first sibling is the parent's first child |
| NodeCore.LastSibling | lib/tree.rb:440-442 | a root is its own last sibling; otherwise the last sibling is the parent's last child |
| NodeCore.IsFirstSibling | lib/tree.rb:427-429 | true exactly for a root or a node whose parent's first child is itself |
| NodeCore.IsLastSibling | lib/tree.rb:445-447 | true exactly for a root or a node whose parent's last child is itself |
| NodeCore.IsOnlyChild | lib/tree.rb:472-474 | true exactly when the breadth is 1 |
| NodeCore.NextSibling | lib/tree.rb:476-484 | nil when the parent does not list the receiver; a sibling found is among the parent's children; `NextAtEnd` gives the nil at the right end |
| NodeCore.PreviousSibling | lib/tree.rb:486-494 | nil when the parent does not list the receiver; a sibling found is among the parent's children; `PreviousAtStart` gives the nil at the left end |
| NodeCore.NextAtEnd | lib/tree.rb:476-484 | a last child that is not listed earlier has no next sibling |
| NodeCore.PreviousAtStart | lib/tree.rb:486-494 | a first child has no previous sibling |
| NodeCore.RootSiblings | lib/tree.rb:422-469 | a root is its own first and last sibling, has breadth 1 and has no sibling list |
| NodeCore.SiblingsAround | lib/tree.rb:427-469 | for a child at position i, `siblings` is the array without position i, breadth is one more than their number, and it is the first (last) sibling exactly at the first (last) position |
| NodeCore.WithoutMembers | lib/tree.rb:457-469 | `siblings` keeps every other entry of the parent's array |
| NodeCore.OnlyChildIsFirstAndLast | lib/tree.rb:472-474 | an only child is its own first and last sibling and has no siblings |
| NodeCore.IndexOf | lib/tree.rb:480-494 | the position found is the first occurrence, and none is found exactly when the node is absent |
| NodeCore.NextPreviousInverse | lib/tree.rb:480-494 | for adjacent children, the first's `nextSibling` is the second and the second's `previousSibling` is the first |
| NodeCore.GetPositions | lib/tree.rb:359-367 | positions i and i minus the array length reach the same child, other integers give nil, and a listed child is reached by its name too |
| NodeCore.Get | lib/tree.rb:359-367 | a nil argument raises; an integer gives nil or a listed child; a name gives nil exactly when it is not indexed, and otherwise the indexed child |
| NodeCore.FirstChild | lib/tree.rb:304-306 | nil for no children, otherwise the array's first entry |
| NodeCore.LastChild | lib/tree.rb:311-313 | nil for no children, otherwise the array's last entry |
| NodeCore.EndChildrenByPosition | lib/tree.rb:304-313 | `firstChild` and `lastChild` are `[0]` and `[-1]`, and a node's first and last siblings are its parent's first and last children |
| NodeCore.Abs | lib/tree.rb:293-295 | a subtree read off the arena keeps each node's name, content and number of children |
| NodeAbs.AbsSlotsOf | lib/tree.rb:293-295 | a child array reads as a list of trees exactly when every slot holds a node that reads as the tree at the same position |
| NodeAbs.AbsFuel | lib/tree.rb:374-376 | once a subtree can be read, more fuel reads the same tree and reaches the same nodes |
| NodeAbs.NotBelowItself | lib/tree.rb:215-222 | a readable node is not among its own descendants |
| NodeAbs.ChildApart | lib/tree.rb:293-295 | each child of a readable node reads as the tree at its position, and the parent is not below it |
| NodeAbs.AbsFrame | lib/tree.rb:293-295 | a subtree reads the same in any arena that agrees on the names, contents and child arrays of the nodes it reaches |
| NodeAbs.IndexHoldsKidNames | lib/tree.rb:215-222 | with array and index in step, a name is in the receiver's index exactly when one of its child trees bears it |
| NodeAbs.AddAbs | lib/tree.rb:215-222 | for a child whose subtree does not contain the receiver, `add` raises exactly when the value-level `<<` fails; otherwise the receiver reads as its old tree with the child's tree appended last, and the child reads as before |
| NodeAbs.AddAbsSize | lib/tree.rb:215-222 | after a successful `add` the receiver's size is the sum of both sizes, and below the receiver pre-order visits the old descendants, then the child's subtree |
| NodeAbs.RemoveAbs | lib/tree.rb:233-238 | `remove!` of a child listed once leaves the receiver reading as its old tree without that child, and the child reads as the subtree it headed |
| NodeAbs.RemoveKeepsKids | lib/tree.rb:233-238 | after `remove!` the receiver's former child array still reads as its former child trees |
| NodeAbs.SlotsDropOne | lib/tree.rb:233-238 | deleting one slot of a readable child array deletes the tree at that position from its reading |
| NodeAbs.RemoveAllAbs | lib/tree.rb:252-259 | after `removeAll!` the receiver reads as a leaf with its name and content, and each former child reads as the subtree it headed |
| TreeValue.Size | lib/tree.rb:374-376 | a subtree counts at least its own node |
| TreeValue.ForestSizeAppend | lib/tree.rb:374-376 | the total size of a row of children adds up over its parts |
| TreeValue.SizeOfMember | lib/tree.rb:374-376 | each child's size is at most its siblings' total |
| TreeValue.PreOrder | lib/tree.rb:319-322 | `each` yields the receiver first |
| TreeValue.HeightOfChildren | lib/tree.rb:551-554 | each child is lower than its parent, and some child is exactly one lower |
| TreeValue.MaxHeightBounds | lib/tree.rb:551-554 | the children's maximum height is reached by one of them and bounds all of them |
| TreeValue.HeightBelowSize | lib/tree.rb:551-554 | the height is below the size |
| TreeValue.Height | lib/tree.rb:551-554 | the height is 0 exactly for a leaf |
| TreeValue.PreOrderLength | lib/tree.rb:319-322 | `each` yields exactly `size` nodes, the receiver first |
| TreeValue.ForestPreOrderLength | lib/tree.rb:319-322 | the children's pre-order sequences together have the children's total size |
| TreeValue.ForestPreOrderAppend | lib/tree.rb:319-322 | pre-order over a row of children is the concatenation of each child's pre-order |
| TreeValue.EachLeaf | lib/tree.rb:348-350 | `each_leaf` yields only childless nodes |
| TreeValue.EachLeafIsFrontier | lib/tree.rb:348-350 | `each_leaf` (pre-order filtered to childless nodes) equals the left-to-right frontier, and yields only leaves |
| TreeValue.ForestLeaves | lib/tree.rb:348-350 | filtering the children's pre-order to leaves gives their frontiers in order |
| TreeValue.LeavesAreLeaves | lib/tree.rb:348-350 | the leaf filter keeps only childless nodes |
| TreeValue.BreadthEach | lib/tree.rb:332-342 | the shift/push queue loop visits the nodes in level order: the receiver, then its children, then their children, level by level (`Levels`) |
| TreeValue.LevelOrder | lib/tree.rb:332-342 | the queue run visits as many nodes as the queued subtrees hold |
| TreeValue.NextLevel | lib/tree.rb:332-342 | the next level of a non-empty row of subtrees holds fewer nodes than the row |
| TreeValue.LevelOrderShift | lib/tree.rb:332-342 | running the queue on `xs + ys` yields `xs` first, then the run on `ys` followed by the children of `xs` |
| TreeValue.LevelOrderIsLevels | lib/tree.rb:332-342 | the queue run equals the level-by-level listing: a row, then the row of its children, and so on |
| TreeValue.LevelOrderPermutes | lib/tree.rb:332-342 | level order over a queue visits the same nodes as pre-order, each once |
| TreeValue.BreadthEachCoversTree | lib/tree.rb:332-342 | `breadth_each` starts at the receiver, yields `size` nodes, and yields each node of `each` once |
| TreeValue.AddChild | lib/tree.rb:215-222 | `<<` on tree values raises exactly when a child already has the name, otherwise appends the child last |
| TreeValue.KidNamesSpec | lib/tree.rb:215-222 | the names checked by `add` are exactly the children's names |
| TreeValue.AddChildFresh | lib/tree.rb:215-222 | adding a child with a new name succeeds and keeps sibling names distinct throughout |
| LegacyTree.Siblings | rubytree/lib/tree.rb:214-225 | only the block-less call on a root fails; without a block nothing is yielded |
| LegacyTree.SiblingsAgree | rubytree/lib/tree.rb:214-225 | off a root, the block receives, and the block-less call returns, the siblings of the later `siblings`, and the block form returns the parent's whole array |
| LegacyTree.SiblingsInOrder | rubytree/lib/tree.rb:214-225 | the block receives the entries before and after the receiver, in order, never the receiver |
| BinaryTree.PutSlot | lib/tree/binarytree.rb:78-87 | a slot write pads the array with nils up to the slot, writes the slot and leaves every other slot alone |
| BinaryTree.PutSpec | lib/tree/binarytree.rb:78-87 | a slot write keeps the set of nodes and the receiver's name, content and parent |
| BinaryTree.LeftChild | lib/tree/binarytree.rb:66-68 | `leftChild` is `[0]` |
| BinaryTree.RightChild | lib/tree/binarytree.rb:73-75 | `rightChild` is `[1]` |
| BinaryTree.PutReadBack | lib/tree/binarytree.rb:66-87 | after writing slot 0 (1), `leftChild` (`rightChild`) reads the new child, the other slot is unchanged, and at most two slots stay at most two |
| BinaryTree.PutKeepsClosed | lib/tree/binarytree.rb:78-87 | a slot write keeps every link referring to an existing node |
| BinaryTree.Add | lib/tree/binarytree.rb:58-62 | an array of length 2 (nil slots included) raises and changes nothing; otherwise it is `TreeNode#add`, and at most two children stay at most two |
| BinaryTree.SetLeft | lib/tree/binarytree.rb:78-81 | slot 0 is overwritten, padding with nil, and indexed; `rightChild` is unchanged |
| BinaryTree.SetRight | lib/tree/binarytree.rb:84-87 | slot 1 is overwritten, padding with nil, and indexed; `leftChild` is unchanged |
| BinaryTree.SetterStrandsDisplaced | lib/tree/binarytree.rb:78-81 | a left child displaced by `leftChild=` (listed only in slot 0) keeps its parent link and its index entry though it is gone from the array |
| BinaryTree.SwapChildren | lib/tree/binarytree.rb:104-108 | new left is old right and new right is old left; on at most two slots the array becomes exactly those two |
| BinaryTree.SwapOnce | lib/tree/binarytree.rb:104-108 | a swap keeps the links valid and, on at most two slots, leaves the array as right then left |
| BinaryTree.SwapTwice | lib/tree/binarytree.rb:104-108 | swapping twice restores both slots, and the whole array when both are filled |
| BinaryTree.IsLeftChild | lib/tree/binarytree.rb:91-94 | nil exactly for a root; true exactly when the parent's slot 0 holds the receiver |
| BinaryTree.IsRightChild | lib/tree/binarytree.rb:98-101 | nil exactly for a root; true exactly when the parent has a slot 1 holding the receiver |
| BinaryTree.SwapExchangesSides | lib/tree/binarytree.rb:91-108 | after a swap, `isLeftChild?` answers what `isRightChild?` answered before, and the other way round |
| Bst.SetAtEffect | test/test_bst.rb:95-117 | `set_child_at` writes the slot, sets the child's parent, indexes its name, leaves the other slot and all names alone, and keeps links valid |
| Bst.SetChildAt | test/test_bst.rb:95-117 | the method performs the `set_child_at` write |
| Bst.Add | lib/tree/bst.rb:76-82 | both slots filled raises; a child named like the receiver raises; otherwise the child goes to slot 0 if its name is smaller, else slot 1, overwriting it; the ordering and the two-slot bound are kept |
| Bst.AddLargerToEmpty | test/test_bst.rb:95-117 | a lone larger child leaves slot 0 nil, so the array is `[nil, child]` |
| Bst.AddSlotBySpaceship | lib/tree/bst.rb:76-82 | the slot chosen by `add` is the one `<=>` points to |
| Bst.SetLeft | lib/tree/bst.rb:97-100 | a non-nil child whose name is not below the receiver's raises and changes nothing; nil or a smaller name is written to slot 0; the ordering is kept |
| Bst.SetRight | lib/tree/bst.rb:115-118 | a non-nil child whose name is not above the receiver's raises and changes nothing; nil or a larger name is written to slot 1; the ordering is kept |
| Bst.SwapChildren | lib/tree/bst.rb:125-128 | always raises, and changes nothing |
| HashConverter.FromHash | lib/tree/utils/hash_converter.rb:49-62 | a non-Hash raises, a Hash without exactly one entry raises, otherwise the one entry is decoded |
| HashConverter.FromEntry | lib/tree/utils/hash_converter.rb:49-62 | a pair key gives name and content, a bare key gives the name and nil content, a value that is neither Hash nor nil raises |
| HashConverter.LeafForms | lib/tree/utils/hash_converter.rb:49-62 | a nil value and an empty Hash both give a leaf |
| HashConverter.AddEntries | lib/tree/utils/hash_converter.rb:92-103 | attaching the entries keeps the receiver's name and content |
| HashConverter.AddEntriesKeepsRoot | lib/tree/utils/hash_converter.rb:92-103 | children already attached stay first; on success one child per entry is appended, in order, those are the ones returned, and each is the decoding of its entry |
| HashConverter.AddEntriesDecodes | lib/tree/utils/hash_converter.rb:92-103 | each returned child is the decoding of the entry at its position |
| HashConverter.AddFromHash | lib/tree/utils/hash_converter.rb:92-103 | the each-loop attaches and returns the children its specification names |
| HashConverter.RepeatedSiblingNameKeepsFirst | lib/tree/utils/hash_converter.rb:92-103 | a bare key and a pair key with the same name make the second `<<` raise after the first child is already attached |
| HashConverter.KeyOf | lib/tree/utils/hash_converter.rb:114-123 | the key is a pair exactly when there is content, and carries the name |
| HashConverter.FindKey | lib/tree/utils/hash_converter.rb:114-123 | `merge!` finds an equal key if there is one, else reports none |
| HashConverter.Merge | lib/tree/utils/hash_converter.rb:117-120 | `merge!` holds the new entry afterwards, replaces an entry with an equal key or else appends, and keeps every entry with another key |
| HashConverter.MergeNew | lib/tree/utils/hash_converter.rb:117-120 | merging an entry whose key is new appends it last |
| HashConverter.ChildrenHash | lib/tree/utils/hash_converter.rb:117-120 | merging n children gives at most n entries |
| HashConverter.ChildrenHashStep | lib/tree/utils/hash_converter.rb:117-120 | a child whose name differs from the earlier children's adds its entry last |
| HashConverter.ToEntry | lib/tree/utils/hash_converter.rb:114-123 | a node's entry has its key and a Hash value, empty for a leaf |
| HashConverter.ToH | lib/tree/utils/hash_converter.rb:114-123 | `to_h` is a one-entry Hash keyed by the node's key, with an empty value for a leaf |
| HashConverter.ChildrenHashInOrder | lib/tree/utils/hash_converter.rb:114-123 | with distinct sibling names, the value lists each child's entry in child order |
| HashConverter.AddEntriesRebuild | lib/tree/utils/hash_converter.rb:92-103 | entries that decode to the children reattach exactly those children |
| HashConverter.EntryRoundTrip | lib/tree/utils/hash_converter.rb:49-62 | decoding a node's entry gives back the node |
| HashConverter.HashRoundTrip | lib/tree/utils/hash_converter.rb:49-62 | `from_hash(to_h(t))` is `t` when sibling names are distinct |
| JsonConverter.AsJson | lib/tree/utils/json_converter.rb:24-38 | name, content and class tag are always present; `children` is present exactly when there are children, and lists their encodings in order |
| JsonConverter.AttachAll | lib/tree/utils/json_converter.rb:80-82 | appending children with `<<` succeeds exactly when their names are pairwise distinct and new to the node, and then appends them all in order; otherwise it raises for a duplicate name |
| JsonConverter.FreshNamesCons | lib/tree/utils/json_converter.rb:80-82 | the children can all be appended exactly when the first one's name is new and the rest can be appended after it |
| JsonConverter.Create | lib/tree/utils/json_converter.rb:76-86 | a missing name raises; repeated child names raise; otherwise the node has the object's name and content and the given children |
| JsonConverter.Decode | lib/tree/utils/json_converter.rb:76-86 | a decoded object keeps its name and content and has one child per listed child object, none without `children` |
| JsonConverter.DecodeList | lib/tree/utils/json_converter.rb:80-82 | a decoded list has one node per child object |
| JsonConverter.JsonCreate | lib/tree/utils/json_converter.rb:76-86 | the node takes the object's name and content, and its children are the given ones in list order, none when the field is missing |
| JsonConverter.LeafObject | lib/tree/utils/json_converter.rb:76-86 | an object without `children` decodes to a leaf; one without a name raises |
| JsonConverter.AttachAllRebuild | lib/tree/utils/json_converter.rb:76-86 | reattaching a node's remaining children rebuilds the node |
| JsonConverter.DecodeListOfEncoding | lib/tree/utils/json_converter.rb:24-86 | the decoded `children` list is the node's children when each child round-trips |
| JsonConverter.JsonRoundTrip | lib/tree/utils/json_converter.rb:24-86 | decoding an encoding gives back the tree when sibling names are distinct |
| FlatRecords.Flat | lib/tree.rb:510-517 | one record per node of the subtree, the receiver's record first |
| FlatRecords.FlatForest | lib/tree.rb:510-517 | the children's records number their total size |
| FlatRecords.FlatParents | lib/tree.rb:510-517 | every record after the first names a parent whose record comes earlier |
| FlatRecords.ForestParents | lib/tree.rb:510-517 | each child record names its parent, which is the receiver or an earlier record |
| FlatRecords.DumpFollowsEach | lib/tree.rb:510-512 | the records describe the nodes of `each` in order |
| FlatRecords.MarshalDump | lib/tree.rb:510-517 | `size` records, the first with the receiver's parent's name (nil on a root), every later one with a parent |
| FlatRecords.NameMap | lib/tree.rb:526-543 | the registry maps each name to an earlier record of that name |
| FlatRecords.NameMapSpec | lib/tree.rb:526-543 | the registry holds every name seen so far, mapped to its latest record |
| FlatRecords.ReplaySpec | lib/tree.rb:526-543 | a successful replay gives every record a child list of later records |
| FlatRecords.ReplayErrSticks | lib/tree.rb:526-543 | after a failed record, the load stays failed with that error |
| FlatRecords.ReplayNext | lib/tree.rb:526-543 | a parentless record starts a node with no children; an unregistered parent name fails |
| FlatRecords.ReplayAttach | lib/tree.rb:526-543 | a record is attached to the latest record with its parent's name, and fails when that node already has a child of its name |
| FlatRecords.Replay | lib/tree.rb:526-543 | the loop over the records computes the replay |
| FlatRecords.ReplayRecord | lib/tree.rb:526-543 | one step of the loop: create, register, attach or fail, keeping each node's index equal to its children's names |
| FlatRecords.Build | lib/tree.rb:526-543 | the tree read off a record has its name, content and number of children |
| FlatRecords.ReplayUnique | lib/tree.rb:526-543 | with unique names, each record's children are exactly the later records naming it as parent |
| FlatRecords.BuildBlock | lib/tree.rb:526-543 | with unique names, the tree read off a subtree's records is that subtree |
| FlatRecords.Load | lib/tree.rb:526-543 | a loaded tree has the first record's name and content; a failed replay fails the load with its error |
| FlatRecords.MarshalLoad | lib/tree.rb:526-543 | the method computes the load |
| FlatRecords.DumpLoadRoundTrip | test/test_tree.rb:591-629 | loading the dump of a tree with unique names gives back the tree |
| FlatRecords.SubtreeDumpFails | lib/tree.rb:526-543 | the dump of a non-root node names a parent that was never created, so the load fails |
| FlatRecords.RepeatedDumpReplay | lib/tree.rb:526-543 | a repeated name in A[B[A], C] registers the later A, so C is attached under it |
| FlatRecords.RepeatedNameMisloads | lib/tree.rb:526-543 | the dump of A[B[A], C] loads as A[B[A[C]]] |
| DumpText.ParentField | rubytree/lib/tree.rb:241-245 | the parent field is the parent's name, or the node's own name on a root |
| DumpText.LineBody | rubytree/lib/tree.rb:241-245 | a record line starts with the name and a field separator, and ends with a field separator and the content |
| DumpText.Encode | rubytree/lib/tree.rb:247-251 | the dump is empty exactly when there are no records |
| DumpText.Dump | rubytree/lib/tree.rb:247-251 | the loop over `each` appends each node's record line |
| DumpText.Pieces | rubytree/lib/tree.rb:253-268 | splitting gives at least one piece, and no piece holds the separator |
| DumpText.JoinPieces | rubytree/lib/tree.rb:253-268 | joining the pieces with the separator gives back the string |
| DumpText.PiecesCons | rubytree/lib/tree.rb:253-268 | a separator-free prefix is the first piece |
| DumpText.DropTrailing | rubytree/lib/tree.rb:253-268 | `split` drops trailing empty pieces and keeps the rest |
| DumpText.Split | rubytree/lib/tree.rb:256 | `split` of an empty string gives no pieces, and the last piece is never empty |
| DumpText.ParseLine | rubytree/lib/tree.rb:253-268 | a parsed record never names itself as parent, since such a line is read as a root |
| DumpText.ParsedPrefixSpec | rubytree/lib/tree.rb:253-268 | the records read are the parses of the leading lines, and reading stops at the first malformed line |
| DumpText.LastRoot | rubytree/lib/tree.rb:253-268 | the root returned is the last self-parented record |
| DumpText.LastRootSnoc | rubytree/lib/tree.rb:253-268 | each self-parented record replaces the root found so far |
| DumpText.ReadRecords | rubytree/lib/tree.rb:253-268 | the line loop reads the parsed records and tracks the last root, and reports a malformed line |
| DumpText.LoadDumpRep | rubytree/lib/tree.rb:253-268 | the method computes the load of the text |
| DumpText.LoadSpec | rubytree/lib/tree.rb:253-268 | a successful load had every line well-formed, and a load with no root had every line name a parent |
| DumpText.ParseLineBody | rubytree/lib/tree.rb:241-268 | a record line with separator-free fields parses back to its record, a root's record included |
| DumpText.SplitEncode | rubytree/lib/tree.rb:241-268 | splitting a dump on newlines gives back its record lines |
| DumpText.ParseBodies | rubytree/lib/tree.rb:241-268 | parsing the lines of separator-free records gives back the records |
| DumpText.TextRoundTrip | rubytree/test/testtree.rb:220-234 | loading the dump of a tree with unique, separator-free names and content gives back the tree |
| DumpText.SameNameChildReadAsRoot | rubytree/lib/tree.rb:253-268 | a child named like its parent is read back as a root |
| CamelToSnake.Slashes | lib/util/cameltosnakecase.rb:73 | rewriting "::" to "/" never lengthens the string |
| CamelToSnake.SlashesNoDoubleColon | lib/util/cameltosnakecase.rb:73 | no "::" is left |
| CamelToSnake.SlashesFixes | lib/util/cameltosnakecase.rb:73 | a string without "::" is unchanged |
| CamelToSnake.UpperRun | lib/util/cameltosnakecase.rb:74 | the run of capitals at the front stops at a non-capital or at the end |
| CamelToSnake.UpperRunUpper | lib/util/cameltosnakecase.rb:74 | every letter in the run is a capital |
| CamelToSnake.SplitAcronyms | lib/util/cameltosnakecase.rb:74 | the acronym step never shortens the string |
| CamelToSnake.SplitAcronymsAt | lib/util/cameltosnakecase.rb:74 | an acronym before a capitalised word is split before its last capital |
| CamelToSnake.SplitAcronymsErase | lib/util/cameltosnakecase.rb:74 | the acronym step only inserts underscores |
| CamelToSnake.SplitAcronymsNoDoubleColon | lib/util/cameltosnakecase.rb:74 | the acronym step creates no "::" |
| CamelToSnake.SplitAcronymsFixes | lib/util/cameltosnakecase.rb:74 | without capitals the acronym step changes nothing |
| CamelToSnake.SplitWords | lib/util/cameltosnakecase.rb:75 | the word step never shortens the string and at most doubles it |
| CamelToSnake.SplitWordsErase | lib/util/cameltosnakecase.rb:75 | the word step only inserts underscores |
| CamelToSnake.SplitWordsSplitsAll | lib/util/cameltosnakecase.rb:75 | after the word step no lowercase letter or digit is followed by a capital |
| CamelToSnake.SplitWordsNoDoubleColon | lib/util/cameltosnakecase.rb:75 | the word step creates no "::" |
| CamelToSnake.SplitWordsFixes | lib/util/cameltosnakecase.rb:75 | without capitals the word step changes nothing |
| CamelToSnake.Dashes | lib/util/cameltosnakecase.rb:76 | the `tr!` step keeps the length and leaves no "-" |
| CamelToSnake.DashesAt | lib/util/cameltosnakecase.rb:76 | each "-" becomes "_" and every other character stays |
| CamelToSnake.DashesFixes | lib/util/cameltosnakecase.rb:76 | a string without "-" is unchanged |
| CamelToSnake.Lower | lib/util/cameltosnakecase.rb:77 | a capital becomes a lowercase letter and every other character stays |
| CamelToSnake.Downcase | lib/util/cameltosnakecase.rb:77 | `downcase!` keeps the length and leaves no capital |
| CamelToSnake.DowncaseAt | lib/util/cameltosnakecase.rb:77 | each character is lowered in place |
| CamelToSnake.DowncaseFixes | lib/util/cameltosnakecase.rb:77 | a string without capitals is unchanged |
| CamelToSnake.CharMapsKeepColons | lib/util/cameltosnakecase.rb:76-77 | the `tr!` and `downcase!` steps neither create nor remove colons |
| CamelToSnake.Underscore | lib/util/cameltosnakecase.rb:71-79 | the result has no uppercase letter |
| CamelToSnake.UnderscoreIsSnake | lib/util/cameltosnakecase.rb:71-79 | the result has no capital, no "-" and no "::" |
| CamelToSnake.UnderscoreFixedPoints | lib/util/cameltosnakecase.rb:71-79 | `underscore` leaves a string unchanged exactly when it has no capital, "-" or "::" |
| CamelToSnake.UnderscoreIdempotent | lib/util/cameltosnakecase.rb:71-79 | applying `underscore` again changes nothing |
| CamelToSnake.UnderscoreOneHump | test/test_tree.rb:1052-1065 | a snake_case word, a capital and a snake_case tail become word, "_", the lowered capital and the tail, as in `isRoot?` to `is_root?` |

## Left out

- `to_s`, `printTree` (lib/tree.rb:158-164, 384-399; rubytree/lib/tree.rb:69-75, 199-202): console output and string formatting of arbitrary objects.
- `depth` (lib/tree.rb:576-587): deprecated and emits a warning; `nodeHeight` is modelled.
- `length` and `preordered_each`: aliases of `size` and `each`.
- `method_missing` (lib/util/cameltosnakecase.rb:48-65): reflective dispatch of camelCase names to their snake_case methods; only `underscore` is modelled.
- `freezeTree!` (lib/tree.rb:505-507): Ruby's `Object#freeze`, outside the data model.
- `hasContent?`, `isRoot?`, `hasChildren?`, `isLeaf?`, `children`, `parent=` and `setAsRoot!`: single reads or writes of a record field, used directly on `NodeRec` rather than as members of their own.
- Enumerable helpers (`find`, `collect`, `include?`): generic library code over `each`.
- NodeCore.Arena.DetachedCopy: does not model `Object#clone` of the content, nor that `false` content turns into nil; content is copied as is.
- Ruby's `Marshal.dump`/`Marshal.load` of content: content is an opaque value in `marshal_dump` records and a separator-free string in the text dump.
- JSON text (`to_json`) and the `JSON.create_id` class dispatch: these belong to the JSON library; only the object shape is modelled.
- Names are strings. The library accepts any object as a name; the model does not.
- Only ASCII letters are upper or lower case in `underscore`, as in Ruby's default `downcase!` on ASCII; other characters are kept.
- Node identity is an `Id` into one `Arena`; object aliasing across arenas does not arise.
- NodeCore.Arena.Add: the child must exist; `add(nil)` dereferences nil in the source.
- NodeCore.Arena.RemoveAll: every child slot must hold a node; on a binary node with a nil slot the source calls a method on nil.
- NodeCore.Arena.Root: requires a parent chain without cycles; the source never checks for cycles, and its loop would not end.
- NodeCore.Arena.Parentage: requires a parent chain without cycles, as for `root`.
- NodeCore.NextSibling, NodeCore.PreviousSibling and NodeCore.IsOnlyChild: they require a parent; on a root the source dereferences nil.
- NodeCore.ChainFrom: the ancestor chain is searched with a fuel bound of the arena's size, which any chain without cycles fits within.
- NodeCore.Abs: reads a subtree off the arena with a fuel bound. The link between the arena and tree values is proved for new nodes, `add`, `remove!` and `removeAll!` (`NodeAbs`). The metrics and traversals are stated on tree values.
- NodeAbs.AddAbs: requires that the child's subtree does not contain the receiver; the source does not check for cycles, and grafting an ancestor makes the tree unreadable.
- FlatRecords.Load: requires that only the first record is parentless. A later parentless record makes `marshal_load` re-initialise the receiver in place, which the model does not follow.
- FlatRecords.Load: requires that no record names itself as parent. `add` checks names only among the receiver's own children (lib/tree.rb:215-222), so a child named like its parent is accepted, and the dump of such a tree holds a record whose parent name is its own. For that record `marshal_load` registers the new node under the name and then adds it to itself (lib/tree.rb:534-535), making a node its own child, which a tree value cannot represent.
- FlatRecords.Load: an empty record list is `MalformedRecord`; in Ruby it leaves the receiver uninitialised.
- Error kinds follow the first failing check of the source; which Ruby exception class is raised is not modelled.
- Bst.SetLeft: the `super` call at lib/tree/bst.rb:99 has no target, since `lib/tree/binarytree.rb` defines no `left_child=`. The model makes it `set_child_at` of slot 0, which also sets the child's parent, unlike `BinaryTree.SetLeft`.
- Bst.SetRight: the `super` call at lib/tree/bst.rb:117 has no target, since `lib/tree/binarytree.rb` defines no `right_child=`. The model makes it `set_child_at` of slot 1, which also sets the child's parent, unlike `BinaryTree.SetRight`.
- Bst.Add: requires the child to be a node. lib/tree/bst.rb:78 reads `child.name` before the nil case of line 81 is reached, so `add(nil)` fails there in the source.
- NodeCore.Arena.Remove: requires the child to be a node of the arena. `remove!(nil)` calls `nil.name` at lib/tree.rb:234 and raises.
- NodeCore.Siblings: models only the block-less call. The block form yields each other child and then returns the parent's whole child array (lib/tree.rb:461-464); `LegacyTree.SiblingsAgree` states that return value for the older `siblings`, whose block form behaves the same on a node with a parent.
- Bst.SetChildAt: `lib/tree/bst.rb` calls `set_child_at`, `left_child` and `right_child`, which `lib/tree/binarytree.rb` does not define. The model defines `set_child_at` as writing the slot (padding with nil), setting the child's parent and indexing its name, as test/test_bst.rb:95-117 relies on. A filled target slot is overwritten.
- DumpText.TextRoundTrip: requires names and content without "|" or "\n" and with non-empty content, because the text form has no escaping.
- `HashConverter.AddFromHash` and `JsonConverter.JsonCreate` build value trees. A failure part-way is reported with the children already attached, but aliasing with nodes held elsewhere is not modelled.
