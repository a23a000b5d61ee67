# Verified model of a collection of Rust data structures

This project models, in Dafny, the in-memory data structures of a Rust teaching repository,
and proves what each of them promises:

- **Red-black tree** (`tree/src/red_black.rs`): insertion and in-order iteration, checked against the
  sorted list of pairs the tree stands for.
  - `add` descends recursively (`add_rec`) and either swaps in the value of an equal key or
    attaches a red leaf.
  - The loop `fix` then repairs the colours by uncle recolouring and triangle and line rotations
    (`rotate_left`, `rotate_right`, `replace_child`).
  - Iteration follows `left_most`, `first_right_parent` and `next`.
  - Nodes live in an arena: a sequence of cells holding key, value, colour and `parent`, `left`
    and `right` indices. A ghost `Shape` names the tree those links describe.
  - `validate` / `is_valid` is modelled twice: as written (with `min` for the largest black height)
    and corrected (see Findings).
- **B-tree** (`tree/src/b_tree.rs`): nodes are values, and the `BTree` object is a class.
  - `add_r` inserts by binary search and splits overflowing nodes with `add_pair`; `add` grows a new
    root.
  - `remove_r` removes from a leaf, or swaps in the predecessor (`remove_right_most_r`), with no
    underflow repair.
  - `validate` checks child counts and equal leaf depth.
- **Binary min-heap** (`tree/src/heap.rs`): `push` with `fix_up`, and a `pop` that moves a hole down
  to a leaf. `drain` is an iterator that pops.
- **Unbalanced binary search tree** (`tree/src/binary.rs`): recursive `add_rec`, `find_rec` and
  `walk_rec`, and the class with its `length` counter.
- **Character trie** (`tree/src/trie.rs`): `add` with replacement, and `find`. The `HashMap` tables
  are Dafny maps over an arena of nodes.
- **Skip-list transaction log** (`ch04_list/src/skip_list.rs`): `append` keeps a tail per level.
  `find` descends level by level, and a level iterator walks the links.
- **Transaction logs** (FIFO queues of strings):
  - singly linked (`ch04_list/src/singly_linked_list.rs`);
  - doubly linked, in two near-identical copies (`ch04_list/src/doubly_linked_list.rs` and
    `list/src/doubly_linked_list.rs`), with forward and backward iterators.
- **Growable array** (`list/src/dynamic_array.rs`): a fixed buffer grown by half when full,
  bounds-checked `at`, and an iterator with a `usize` cursor.
- **Adjacency-list graph** (`tree/src/graph.rs`): `get_node_index` and `set_edges`.

The source's code is imperative: fields updated in place, loops over cursors, vectors changed by
`insert`/`swap`/`pop`. It is modelled as classes with `modifies` clauses and `while` loops with
invariants. Code that is pure recursion over owned values is modelled as functions on datatypes:
the binary search tree's helpers, the B-tree's nodes, `validate`, and the graph's edge
resolution. Shared references (`Rc`, `RefCell`, `Weak`) become indices into an arena.

The B-tree and the red-black tree are both proved against `SortedPairs`, a sorted list of
`(key, value)` pairs:

- `InsertSorted` puts a pair in its place, replacing an equal key.
- `Get` looks a key up.
- `Delete` removes a key.

Files: `wrappers.dfy` (`Option`), `sorted_pairs.dfy`, `red_black_shape.dfy` (the arena, shapes,
rotations and colour conditions), `red_black.dfy`, `b_tree.dfy`, `heap.dfy`,
`binary_search_tree.dfy`, `trie.dfy`, `skip_list.dfy`, `singly_linked_list.dfy`,
`doubly_linked_list_ch04.dfy`, `doubly_linked_list.dfy`, `dynamic_array.dfy`, `graph.dfy`.

## Model

| member | source | states |
|---|---|---|
| SortedPairs.InsertSortedKeeps | tree/src/b_tree.rs:179-191 | inserting into sorted pairs keeps them sorted and adds one pair exactly when the key was absent |
| SortedPairs.InsertSortedGet | tree/src/b_tree.rs:179-191 | after an insertion the key finds the new value and every other key finds what it found before |
| SortedPairs.DeleteKeeps | tree/src/b_tree.rs:230-251 | removing from sorted pairs keeps them sorted, drops one pair exactly when the key was present, and invents no pair |
| SortedPairs.DeleteGet | tree/src/b_tree.rs:230-251 | after a removal the key finds nothing and every other key finds what it found before |
| RedBlack.ValidateAsWritten | tree/src/red_black.rs:57-87 | `validate` as written: the smallest and largest black heights it reports are always equal |
| RedBlack.Validate | tree/src/red_black.rs:57-87 | `validate` with `max`: the black height lies between the reported bounds, which are equal exactly when every path has as many black cells |
| RedBlack.ValidateRedRed | tree/src/red_black.rs:64-80 | both versions count the same red-under-red pairs, and the count is zero exactly when no red cell has a red parent |
| RedBlack.ValidateAsWrittenAccepts | tree/src/red_black.rs:54-56 | the as-written `is_valid` holds exactly when no red cell has a red parent, a red root counting as one; black heights are not checked |
| RedBlack.ValidateAccepts | tree/src/red_black.rs:54-56 | the corrected check holds exactly when there is no red-red pair (red root included) and all paths are black-balanced |
| RedBlack.ValidateMinSlip | tree/src/red_black.rs:83 | a black root with one black child is unbalanced, yet the as-written check accepts it and the corrected one rejects it |
| RedBlack.RedBlackTree.constructor | tree/src/red_black.rs:31-35 | the derived default: an empty, valid tree with length 0 |
| RedBlack.RedBlackTree.Length | tree/src/red_black.rs:50-52 | `length` is the number of pairs in the tree |
| RedBlack.RedBlackTree.IsValid | tree/src/red_black.rs:54-56 | `is_valid` with the corrected `validate` holds exactly when the tree satisfies both red-black conditions |
| RedBlack.RedBlackTree.IsLeft | tree/src/red_black.rs:135-141 | in a tree whose links describe its shape, true exactly when the cell is the root of the parent's left subtree in that shape |
| RedBlackShape.LeftOfSubtree | tree/src/red_black.rs:135-141 | in a linked tree, the left link of a cell leads to the root of that cell's left subtree |
| RedBlack.RedBlackTree.ReplaceChild | tree/src/red_black.rs:142-160 | the new child takes the old child's slot (left when the old one was the left child, else right) and gets the parent; without a parent only its parent link is cleared |
| RedBlack.RedBlackTree.RelinkLeft | tree/src/red_black.rs:170-178 | the cells after the link updates of a left rotation: the right child takes the node's place under its parent, its left subtree moves to the node's right, the node hangs to its left, and no other cell changes |
| RedBlack.RedBlackTree.RelinkRight | tree/src/red_black.rs:192-200 | the mirror image of `RelinkLeft` |
| RedBlack.RedBlackTree.RotateLeft | tree/src/red_black.rs:161-182 | without a right child nothing changes; otherwise the right child takes the node's place, the links describe the left-rotated shape, and no colour, key or value changes |
| RedBlack.RedBlackTree.RotateRight | tree/src/red_black.rs:183-204 | the mirror image of `RotateLeft`, with the left child moving up |
| RedBlack.RedBlackTree.AddRec | tree/src/red_black.rs:89-134 | the subtree then holds the sorted pairs with the new pair put in its place; an equal key has its value swapped, with no link changed; otherwise exactly one red leaf is attached, linked to its parent; black heights stay and the leaf is the only possible red-red violation |
| RedBlack.UncleRound | tree/src/red_black.rs:231-241 | with a red uncle, painting parent and uncle black and grandparent red keeps the loop invariant at the grandparent (black heights unchanged) with fewer red cells |
| RedBlack.TriangleLeftRound | tree/src/red_black.rs:258-264 | the triangle case on the left: a left rotation at the parent keeps the invariant at the parent, now in line |
| RedBlack.TriangleRightRound | tree/src/red_black.rs:267-272 | the triangle case on the right: the mirror image, with a right rotation |
| RedBlack.LineLeftRound | tree/src/red_black.rs:247-257 | the line case on the left: after recolouring and a right rotation at the grandparent, the tree is a valid red-black tree with the same cells in order, rooted at the parent if the grandparent was the root |
| RedBlack.LineRightRound | tree/src/red_black.rs:273-284 | the line case on the right: the mirror image, with a left rotation |
| RedBlack.BlackenRound | tree/src/red_black.rs:289-290 | when the loop stops, painting the root black leaves no red-red pair and keeps the balance |
| RedBlack.RedBlackTree.FixRotate | tree/src/red_black.rs:243-286 | with a red parent and no red uncle: a triangle rotates at the parent and the loop goes on there with the invariant kept and the bend gone; a line rotates at the grandparent and finishes with a valid tree |
| RedBlack.RedBlackTree.Fix | tree/src/red_black.rs:205-291 | after a red leaf was attached, the loop ends with the same cells in the same order, keys and values untouched, no red-red pair, a black root and balanced black heights |
| RedBlack.RedBlackTree.Add | tree/src/red_black.rs:292-306 | the tree holds the old pairs with `(key, value)` put in place and stays a valid red-black tree; it returns the key's old value; `length` grows exactly when the key was new; a replacement changes no link and no colour |
| RedBlack.RedBlackTree.LeftMost | tree/src/red_black.rs:308-319 | the result is the first cell, in order, of the subtree at `n` |
| RedBlack.RedBlackTree.FirstRightParent | tree/src/red_black.rs:320-335 | the result is the first cell in order after the whole subtree of `n`, or none when nothing follows it |
| RedBlackShape.NextPosition | tree/src/red_black.rs:336-346 | the cells after position `j` in order are those of its right subtree followed by what comes after its subtree |
| RedBlack.RedBlackTree.Next | tree/src/red_black.rs:336-346 | the result is the cell after `c` in order, or none after the last cell |
| RedBlack.RedBlackTree.Iterate | tree/src/red_black.rs:347-352 | a new iterator positioned on the first pair in order |
| RedBlack.Iter.constructor | tree/src/red_black.rs:355-358 | an iterator on the first cell in order, having yielded nothing |
| RedBlack.Iter.Next | tree/src/red_black.rs:360-372 | the i-th call yields the cell holding the i-th pair in key order, and `None` once all pairs have been yielded |
| RedBlackShape.RotLKeeps | tree/src/red_black.rs:161-182 | a left rotation of a subtree keeps its cells and their order |
| RedBlackShape.RotRKeeps | tree/src/red_black.rs:183-204 | a right rotation of a subtree keeps its cells and their order |
| RedBlackShape.RotateAtKeeps | tree/src/red_black.rs:161-204 | a rotation anywhere in the tree keeps its cells, their order and their distinctness |
| RedBlack.SwapHere | tree/src/red_black.rs:118-122 | replacing the value at the equal key replaces that pair, returns the old value and leaves links and colours valid |
| RedBlack.GraftLeftContents | tree/src/red_black.rs:112-117 | after the left descent, the subtree holds the sorted pairs with the new pair inserted |
| RedBlack.GraftRightContents | tree/src/red_black.rs:123-128 | after the right descent, the subtree holds the sorted pairs with the new pair inserted |
| BTree.NewWithData | tree/src/b_tree.rs:33-38 | the node has the given pairs, and the given children or none |
| BTree.NewRoot | tree/src/b_tree.rs:40-45 | the new root's pairs are the left child's, the pair, then the right child's; it is one level deeper and well formed |
| BTree.SplitBefore | tree/src/b_tree.rs:57-67 | the `Less` arm of the split: the node keeps the first `(len + 1) / 2` pairs of the insertion result, the middle pair goes up with the rest, and children are shared out one more than pairs |
| BTree.SplitAtMiddle | tree/src/b_tree.rs:68-76 | the `Equal` arm: the new pair itself goes up, with the same sharing out |
| BTree.SplitAfter | tree/src/b_tree.rs:77-88 | the `Greater` arm: the new pair lands in the right node, with the same sharing out |
| BTree.AddPair | tree/src/b_tree.rs:47-101 | no split exactly when `len + 1 < max_children_length`; then the pair is inserted at `to_insert` and the right child just after it; otherwise the node splits as above |
| BTree.AddPairFlat | tree/src/b_tree.rs:54-100 | a node and the split it hands up hold, in order, the old pairs with the pair and child inserted |
| BTree.Position | tree/src/b_tree.rs:179 | the number of leading pairs below the key |
| BTree.BinarySearch | tree/src/b_tree.rs:179 | `Ok(i)`: pair `i` has the key; `Err(i)`: keys before `i` are below it and, in sorted pairs, keys from `i` on are above it |
| BTree.AddR | tree/src/b_tree.rs:172-208 | keeps nodes well formed; a split is handed up only when no old value was found |
| BTree.AddRFlat | tree/src/b_tree.rs:172-208 | the node and its split hold the sorted pairs with `(key, value)` put in place; the returned value is the key's old one |
| BTree.AddRLevelled | tree/src/b_tree.rs:172-208 | all leaves stay at one depth, and a split hands up a node of the same depth |
| BTree.AddRPresentKeepsShape | tree/src/b_tree.rs:179-183 | adding a present key causes no split and leaves every node's keys and children as they were |
| BTree.Grow | tree/src/b_tree.rs:166-169 | the root after `add` holds the node's pairs and those of the split |
| BTree.RemoveRightMost | tree/src/b_tree.rs:252-261 | takes the last pair in order, keeping the node well formed; a tree without pairs panics (`None`) |
| BTree.RemoveRightMostLevelled | tree/src/b_tree.rs:252-261 | taking the right-most pair keeps every leaf at one depth |
| BTree.RemoveR | tree/src/b_tree.rs:230-251 | a removal keeps the node well formed with as many children, and an internal node as many pairs |
| BTree.RemoveRFlat | tree/src/b_tree.rs:230-251 | nothing found exactly when the key is absent; a removal returns the key's value and leaves the sorted pairs without it |
| BTree.RemovePairFlat | tree/src/b_tree.rs:239-243 | swapping in the right-most pair of the left child deletes exactly the searched pair |
| BTree.RemoveRLevelled | tree/src/b_tree.rs:230-251 | a removal keeps every leaf at one depth |
| BTree.ValidateExact | tree/src/b_tree.rs:131-158 | `validate` succeeds exactly when every internal node has the right number of children and all leaves share a depth, and then reports that level |
| BTree.ValidateRestExact | tree/src/b_tree.rs:148-152 | the loop over the remaining children succeeds exactly when each of them validates at the first child's level |
| BTree.BTree.constructor | tree/src/b_tree.rs:117-123 | an empty, valid tree with length 0 and the given maximum |
| BTree.BTree.IsValid | tree/src/b_tree.rs:125-130 | an empty tree is valid; otherwise the child counts and equal leaf depth hold |
| BTree.BTree.Add | tree/src/b_tree.rs:160-171 | the tree stays valid and holds the old pairs with `(key, value)` put in place; it returns the key's old value; `length` grows exactly when the key was new |
| BTree.AddRoot | tree/src/b_tree.rs:160-171 | an insertion at the root (or into a fresh leaf) gives, after growing a new root on a split, a valid node holding the sorted pairs with `(key, value)` put in place, one level deeper only after a split; the old value comes back and the count grows exactly when the key was new |
| BTree.RemoveRoot | tree/src/b_tree.rs:210-229 | a removal at the root keeps it well formed, levelled and sorted, holds the old pairs without the key, one fewer, and leaves no pairs exactly when the tree became empty |
| BTree.BTree.Remove | tree/src/b_tree.rs:210-229 | absent key: nothing changes and nothing is returned; removal: the key's value is returned, the pair is gone and `length` drops by one; otherwise the `unwrap` panic of `remove_r` |
| BTree.RemovePanicScenario | tree/src/b_tree.rs:252-261 | adding 5, 1, 7 and removing 1 leaves a tree `validate` accepts, on which removing 5 reaches the `unwrap` panic |
| MinHeap.Swap | tree/src/heap.rs:42 | a swap keeps the length and the multiset of elements |
| MinHeap.HeapRootMin | tree/src/heap.rs:20-49 | the root of a heap is its minimum |
| MinHeap.SiftUpStep | tree/src/heap.rs:51-58 | a swap with a greater parent moves the only flaw up to the parent |
| MinHeap.HoleStep | tree/src/heap.rs:29-38 | moving the hole to the smaller child keeps the pop invariant |
| MinHeap.HoleAtLeaf | tree/src/heap.rs:40-45 | with the hole at a leaf, swapping it with the last element leaves only that element to sift up |
| MinHeap.HoleAboveLast | tree/src/heap.rs:39 | with the last element as the hole's only child, the swap leaves the prefix a heap |
| MinHeap.Heap.constructor | tree/src/heap.rs:7-11 | an empty heap |
| MinHeap.Heap.FixUp | tree/src/heap.rs:50-60 | sifting up restores heap order over the prefix, keeps the elements and leaves the rest untouched |
| MinHeap.Heap.Push | tree/src/heap.rs:14-18 | the heap stays ordered and gains exactly the pushed value |
| MinHeap.Heap.MoveHole | tree/src/heap.rs:28-47 | one round of the pop loop: the hole moves strictly down and the invariant holds |
| MinHeap.Heap.Pop | tree/src/heap.rs:20-49 | `None` on an empty heap; otherwise the minimum, with the heap one shorter, still ordered, and without that one value |
| MinHeap.Heap.Drain | tree/src/heap.rs:62-64 | an iterator over this heap |
| MinHeap.DrainIter.Next | tree/src/heap.rs:74-76 | the same promise as `pop` |
| MinHeap.DrainIter.Collect | tree/src/heap.rs:94-97 | collecting the drain yields the stored values in ascending order and empties the heap |
| MinHeap.SortedUnique | tree/src/heap.rs:94-97 | two sorted sequences with the same elements are equal |
| MinHeap.DrainPermutation | tree/src/heap.rs:85-97 | pushing any permutation of 0..n and draining yields 0, 1, ..., n - 1 |
| BinarySearchTree.AddRec | tree/src/binary.rs:27-48 | the keys become the old keys plus the new one, and search-tree order is kept |
| BinarySearchTree.FindRec | tree/src/binary.rs:56-65 | a value is found only for a stored key |
| BinarySearchTree.WalkRec | tree/src/binary.rs:71-77 | one pair per node |
| BinarySearchTree.FindRecComplete | tree/src/binary.rs:56-65 | in a search tree, `find_rec` finds exactly the stored keys |
| BinarySearchTree.FindAfterAdd | tree/src/binary.rs:27-65 | finding a key just added gives the value just added |
| BinarySearchTree.FindOtherAfterAdd | tree/src/binary.rs:27-65 | adding changes what is found for no other key |
| BinarySearchTree.AddRecSize | tree/src/binary.rs:40 | adding a present key adds no node; adding a new key adds exactly one |
| BinarySearchTree.WalkRecKeys | tree/src/binary.rs:71-77 | the walk visits exactly the stored keys |
| BinarySearchTree.WalkRecSorted | tree/src/binary.rs:71-77 | in a search tree the walk visits keys in strictly ascending order |
| BinarySearchTree.FindRecAgreesWithWalk | tree/src/binary.rs:56-77 | the value found for a key is the one the walk pairs with it |
| BinarySearchTree.BinarySearchTree.constructor | tree/src/binary.rs:17-24 | an empty tree with length 0 |
| BinarySearchTree.BinarySearchTree.Add | tree/src/binary.rs:50-54 | `length` grows on every call, duplicates included; the key then finds the new value and every other key what it found before |
| BinarySearchTree.BinarySearchTree.Find | tree/src/binary.rs:67-69 | a value is found exactly for the stored keys |
| BinarySearchTree.WalkRecFind | tree/src/binary.rs:56-77 | in a search tree every visited pair carries the value `find_rec` returns for its key |
| BinarySearchTree.BinarySearchTree.Walk | tree/src/binary.rs:79-81 | the callback sees every stored key once, in strictly ascending order, each with the value `find` returns for it |
| BinarySearchTree.DuplicateAddScenario | tree/src/binary.rs:50-54 | adding one key twice counts two calls, keeps one node and finds the second value |
| Trie.RootLink | tree/src/trie.rs:17-19 | a character is in the root table exactly when its one-character path has a node, and the table leads to that node |
| Trie.ChildLink | tree/src/trie.rs:3-6 | a character is in a node's table exactly when the node's path extended by it has a node, and the table leads to that node |
| Trie.PrefixPresent | tree/src/trie.rs:33-36 | every non-empty prefix of a path with a node has a node |
| Trie.LinkRootChild | tree/src/trie.rs:33 | a node added under a missing root character keeps the tables and paths consistent, with the new one-character path leading to it |
| Trie.LinkChild | tree/src/trie.rs:35 | a node added under a missing character of a node's table keeps the tables and paths consistent, with the extended path leading to it |
| Trie.Trie.constructor | tree/src/trie.rs:21-27 | nothing is stored under any path |
| Trie.Trie.RootEntry | tree/src/trie.rs:33 | the node of the one-character path exists afterwards; no stored value changes |
| Trie.Trie.Entry | tree/src/trie.rs:34-36 | the node of the extended path exists afterwards; no stored value changes |
| Trie.Trie.SwapValue | tree/src/trie.rs:37-39 | the path's value is replaced and its old value returned; no other path changes |
| Trie.Trie.Add | tree/src/trie.rs:30-43 | the empty path stores nothing and returns `None`; otherwise the path stores the value and its old value is returned; other paths are unchanged |
| Trie.Trie.Find | tree/src/trie.rs:45-63 | the value stored for the path, and `None` for the empty path |
| Trie.AddAndFindScenario | tree/src/trie.rs:71-83 | the test's results, plus a proper prefix of an added path finding nothing |
| SkipList.BestTransactionLog.NewEmpty | ch04_list/src/skip_list.rs:31-38 | no entries, length 0, no head and `max_level + 1` empty tails |
| SkipList.BestTransactionLog.Length | ch04_list/src/skip_list.rs:40-42 | the number of appended entries |
| SkipList.LinkAtLevel | ch04_list/src/skip_list.rs:61-66 | one round of the append loop links the new node after the tail at that level |
| SkipList.AppendStep | ch04_list/src/skip_list.rs:61-66 | one round of the append loop keeps the loop invariant |
| SkipList.BestTransactionLog.LinkNew | ch04_list/src/skip_list.rs:61-66 | every level below the new node's height links it after the old tail and makes it the tail; entries and other fields stay |
| SkipList.BestTransactionLog.Append | ch04_list/src/skip_list.rs:52-73 | entries gain `(offset, command)`; the first node gets height `max_level + 1`, later ones `1 + level`; tails move to the new node exactly at its levels; at each of those levels the old tail now links to the new node, and every other link and every old height is as before (`AppendedLinks`); `head` is set only on the first append; `length` grows by one; all levels stay linked |
| SkipList.AppendedFrame | ch04_list/src/skip_list.rs:61-66 | the loop's relinking, stated against the nodes before the new one: old heights kept, the new node linking nowhere, and only the old tails' links at the new node's levels changed, to the new node |
| SkipList.AppendedTails | ch04_list/src/skip_list.rs:61-66 | after an append, each old tail of a level the new node takes part in is a real node of that level and links to the new node |
| SkipList.BestTransactionLog.TopLevel | ch04_list/src/skip_list.rs:83-92 | gives up (the `usize` wrap) exactly when the head is the only node; otherwise the highest level at which the head has a successor, the highest any later node reaches |
| SkipList.PastTarget | ch04_list/src/skip_list.rs:96-108 | with increasing offsets, once the next node at a level is past the target, so is every later node at that level |
| SkipList.BestTransactionLog.Advance | ch04_list/src/skip_list.rs:96-108 | moves forward to a node not past the target whose successor at the level is missing or past it |
| SkipList.BestTransactionLog.Search | ch04_list/src/skip_list.rs:75-120 | a command found is stored under the offset; with increasing offsets `None` means the offset is absent; a head hit is always found |
| SkipList.LookupFirst | ch04_list/src/skip_list.rs:75-120 | the first entry with an offset is the one looked up |
| SkipList.LookupAbsent | ch04_list/src/skip_list.rs:75-120 | an offset no entry has looks up nothing |
| SkipList.BestTransactionLog.Find | ch04_list/src/skip_list.rs:75-120 | a command found is stored under the offset; with offsets appended in increasing order, the command appended with the offset or `None`; in any order, the head's command on a head hit |
| SkipList.BestTransactionLog.Iter | ch04_list/src/skip_list.rs:122-124 | an iterator over the nodes of the level, in order; at level 0, all nodes |
| SkipList.MembersNext | ch04_list/src/skip_list.rs:144-150 | following a member's link at a level leads to the next member of that level |
| SkipList.MembersBottom | ch04_list/src/skip_list.rs:122-124 | every node takes part in level 0 |
| SkipList.ListIterator.constructor | ch04_list/src/skip_list.rs:133-138 | an iterator from the head over the members of the level |
| SkipList.ListIterator.Next | ch04_list/src/skip_list.rs:144-150 | yields the `(offset, command)` of the next member of the level, then `None` |
| SkipList.FindScenario | list/tests/skip_list.rs:69-107 | increasing offsets with any levels: each offset finds its command, an absent offset nothing |
| SkipList.SingleEntryScenario | ch04_list/src/tests/skip_list.rs:25-38 | a one-entry log has length 1 and finds its entry |
| SinglyLinkedList.TransactionLog.NewEmpty | ch04_list/src/singly_linked_list.rs:27-33 | an empty log with length 0 |
| SinglyLinkedList.TransactionLog.Length | ch04_list/src/singly_linked_list.rs:35-37 | the number of queued values |
| SinglyLinkedList.TransactionLog.Append | ch04_list/src/singly_linked_list.rs:39-50 | the value joins the back; the new node is the tail, linked after the old one or as the head; `length` grows by one |
| SinglyLinkedList.TransactionLog.Pop | ch04_list/src/singly_linked_list.rs:52-70 | `None` on an empty log; otherwise the oldest value, removed, with `length` one less; an emptied log has no head and no tail |
| SinglyLinkedList.TransactionLogScenario | ch04_list/src/lib.rs:12-37 | appends and pops come out in FIFO order, and an emptied log restarts cleanly |
| DoublyLinkedListCh04.Reverse | ch04_list/src/doubly_linked_list.rs:127-141 | the sequence backwards |
| DoublyLinkedListCh04.BetterTransactionLog.NewEmpty | ch04_list/src/doubly_linked_list.rs:33-39 | an empty log with length 0 |
| DoublyLinkedListCh04.BetterTransactionLog.Length | ch04_list/src/doubly_linked_list.rs:41-43 | the number of queued values |
| DoublyLinkedListCh04.ChainAppend | ch04_list/src/doubly_linked_list.rs:45-57 | linking a new node after the tail (or as the only node) keeps the chain consistent both ways and adds the value at the back |
| DoublyLinkedListCh04.ChainPop | ch04_list/src/doubly_linked_list.rs:59-74 | unlinking the head keeps the rest of the chain consistent both ways and its values |
| DoublyLinkedListCh04.BetterTransactionLog.Append | ch04_list/src/doubly_linked_list.rs:45-57 | the value joins the back; the new tail links back to the old one, which links forward to it, or it becomes the head; `length` grows by one |
| DoublyLinkedListCh04.BetterTransactionLog.Pop | ch04_list/src/doubly_linked_list.rs:59-74 | `None` on an empty log; otherwise the oldest value, removed, with `length` one less; an emptied log has no head and no tail |
| DoublyLinkedListCh04.BetterTransactionLog.Iter | ch04_list/src/doubly_linked_list.rs:76-78 | an iterator that yields the values in append order |
| DoublyLinkedListCh04.BetterTransactionLog.BackIter | ch04_list/src/doubly_linked_list.rs:80-82 | an iterator that yields the values backwards with `NextBack` |
| DoublyLinkedListCh04.BetterTransactionLog.IntoIter | ch04_list/src/doubly_linked_list.rs:89-91 | an iterator that yields the values in append order |
| DoublyLinkedListCh04.ListIterator.constructor | ch04_list/src/doubly_linked_list.rs:99-103 | a cursor on the given node |
| DoublyLinkedListCh04.ListIterator.Next | ch04_list/src/doubly_linked_list.rs:109-123 | yields the next value forwards, then `None`; the log is unchanged |
| DoublyLinkedListCh04.ListIterator.NextBack | ch04_list/src/doubly_linked_list.rs:127-141 | yields the next value backwards, then `None`; the log is unchanged |
| DoublyLinkedList.Reverse | list/src/doubly_linked_list.rs:117-123 | the sequence backwards |
| DoublyLinkedList.BetterTransactionLog.NewEmpty | list/src/doubly_linked_list.rs:31-37 | an empty log with length 0 |
| DoublyLinkedList.BetterTransactionLog.Length | list/src/doubly_linked_list.rs:39-41 | the number of queued values |
| DoublyLinkedList.ChainAppend | list/src/doubly_linked_list.rs:43-55 | linking a new node after the tail (or as the only node) keeps the chain consistent both ways and adds the value at the back |
| DoublyLinkedList.ChainPop | list/src/doubly_linked_list.rs:57-74 | unlinking the head keeps the rest of the chain consistent both ways and its values |
| DoublyLinkedList.BetterTransactionLog.Append | list/src/doubly_linked_list.rs:43-55 | the value joins the back, linked both ways, or becomes the head; `length` grows by one |
| DoublyLinkedList.BetterTransactionLog.Pop | list/src/doubly_linked_list.rs:57-74 | `None` on an empty log; otherwise the oldest value, removed, with `length` one less; an emptied log has no head and no tail |
| DoublyLinkedList.BetterTransactionLog.Iter | list/src/doubly_linked_list.rs:76-78 | an iterator that yields the values in append order |
| DoublyLinkedList.BetterTransactionLog.BackIter | list/src/doubly_linked_list.rs:80-82 | an iterator that yields the values backwards with `NextBack` |
| DoublyLinkedList.ListIterator.constructor | list/src/doubly_linked_list.rs:92-96 | a cursor on the given node |
| DoublyLinkedList.ListIterator.Next | list/src/doubly_linked_list.rs:102-113 | yields the next value forwards, then `None`; the log is unchanged |
| DoublyLinkedList.ListIterator.NextBack | list/src/doubly_linked_list.rs:117-123 | yields the next value backwards, then `None`; the log is unchanged |
| DoublyLinkedList.BackIterThenPopScenario | list/tests/doubly_linked_list.rs:121-142 | a partial backward walk leaves the log unchanged, so the pops return all three values in order |
| DynamicArray.TimestampSaver.NewEmpty | list/src/dynamic_array.rs:13-18 | nothing stored, capacity `MIN_SIZE` (10) |
| DynamicArray.TimestampSaver.Cap | list/src/dynamic_array.rs:20-22 | the capacity, never below the number stored |
| DynamicArray.TimestampSaver.Grow | list/src/dynamic_array.rs:24-32 | a new buffer of `max(min_cap, cap + cap / 2)` slots holding the same elements |
| DynamicArray.TimestampSaver.Append | list/src/dynamic_array.rs:34-40 | the value is stored after the others and `length` grows by one; the buffer grows only when full, to `max(length + 1, cap + cap / 2)`, and never shrinks |
| DynamicArray.TimestampSaver.At | list/src/dynamic_array.rs:42-48 | the element at the index, or `None` at or past `length` |
| DynamicArray.TimestampSaver.IntoIter | list/src/dynamic_array.rs:55-60 | an iterator with the cursor on the first element that yields all elements in order |
| DynamicArray.ListIterator.constructor | list/src/dynamic_array.rs:55-60 | the cursor is at 0 |
| DynamicArray.ListIterator.Next | list/src/dynamic_array.rs:71-79 | yields the elements in order, then `None` |
| DynamicArray.ListIterator.NextBack | list/src/dynamic_array.rs:83-91 | yields the element under the cursor and moves the cursor back, wrapping from 0 to the largest `usize`; `None` past the end |
| DynamicArray.NextBackFromFront | list/src/dynamic_array.rs:83-91 | on a fresh iterator, `next_back` yields the first element, and then both directions yield nothing |
| Graph.GetNodeIndex | tree/src/graph.rs:12-14 | the position of the first node equal to the key, or `None` exactly when there is none |
| Graph.ResolveEdges | tree/src/graph.rs:16-24 | each edge targets an existing node; pairs whose key is not a node are dropped, and when all keys are nodes each pair becomes the edge with its weight and index |
| Graph.ResolveEdgesExact | tree/src/graph.rs:16-24 | an edge is kept exactly when some input pair has its weight and a key found at its index |
| Graph.Graph.SetEdges | tree/src/graph.rs:15-34 | edges are resolved against the nodes present before `from` is added; a new `from` is appended with them, so a self-loop is dropped; an existing one has only its edge list replaced; every edge stays in range |

## Left out

- Ownership and sharing: `Rc`, `RefCell`, `Weak`, `upgrade().unwrap()`, borrow panics and the
  `Rc::try_unwrap` fallbacks are replaced by arena indices. Pointer identity (`is_left` compares
  addresses) is equality of indices.
- Memory reclamation: popped or removed nodes stay in the arena, unreachable.
- `unsafe` reads, iterator lifetimes and `PhantomData` are left out. The iterators keep a cursor
  and are proved to yield the right sequence.
- SkipList.ListIterator copies the log's nodes when it is made, so it yields the members of its
  level as they were at `iter`. The source's iterator holds an `Rc` cursor and follows the live
  `next[level]` links, so it also reaches nodes appended after `iter` was called.
- Shallow `#[derive(Clone)]` copies of the doubly linked log, which share nodes, are left out.
- Keys are `int` where the source is generic over `K: Ord`. The graph is generic over keys with
  equality. Heap elements are `int`.
- Machine widths: lengths and indices are unbounded `nat`. The width is modelled only where it
  changes behaviour:
  - the `u64` offsets and timestamps;
  - the `usize` wrap of the skip-list `find` loop;
  - the dynamic array's `next_back` wrap.
  The `cmp::min(new_cap, usize::MAX)` in `grow` is a no-op and is not modelled.
- SkipList.BestTransactionLog.TopLevel, DynamicArray.ListIterator.NextBack and
  DynamicArray.NextBackFromFront follow a release build, where `usize` subtraction wraps. A debug
  build, the default for `cargo test`, panics on overflow instead: `max_level -= 1` panics on a
  one-node log searched for another offset (where `TopLevel` and `Find` give `None`), and
  `self.current -= 1` panics on `next_back` at index 0 (where the model yields `buf[0]` and wraps).
- Randomness: `random_level` is the `randomLevel` parameter of `SkipList.BestTransactionLog.Append`,
  bounded by `max_level` as its loop ensures. The shuffles in the tests are permutations
  (`MinHeap.DrainPermutation`).
- `Debug` formatting, printing, the skip-list example program and the benchmarks are output or
  timing only.
- The `walk` callback of the binary search tree is the sequence of pairs it receives; the
  callback's own effects are not modelled.
- The red-black tree has no removal and no lookup in the source, so neither is modelled.
- The default `BTree` (`max_children_length` 128) and `Node::new_leaf` appear only as the
  constructor's parameter and an empty node.
- The graph source has no constructor; `Graph.Graph.constructor` makes the empty graph it would
  start from.
- SkipList.BestTransactionLog.Iter: requires `level <= max_level`; a higher level makes the
  source's `next` panic on the index, which is not modelled.
- SkipList.BestTransactionLog.Find: with offsets not appended in increasing order, only a head hit
  is promised, and that whatever is found is stored under the offset; a stored offset may then
  be missed. The skip list's descent assumes increasing offsets.
- The skip list's `into_iter` is `iter(0)`, so `SkipList.BestTransactionLog.Iter` at level 0
  stands for it.
- `SkipList.BestTransactionLog.NewEmpty` requires `max_level < usize::MAX`, as `max_level + 1`
  tails must fit.
- B-tree `is_valid` is not promised after `remove`: there is no underflow repair.
  `BTree.RemovePanicScenario` shows the panic this leads to. `BTree.BTree.Remove` states the
  tree's contents, not its validity.
- A B-tree `remove` whose `remove_right_most_r` panics is modelled as the `Panicked` outcome. The
  state after that panic is not described beyond the root having been taken out.

## Findings

| source | as written | input that shows it | evidently intended | confidence | as-written member | corrected member |
|---|---|---|---|---|---|---|
| tree/src/red_black.rs:83 | `black_height_max` is combined with `cmp::min`, like `black_height_min`, so the two always agree and `is_valid` never checks black-height balance | a black root with a single black child (`RedBlack.ValidateMinSlip`): one path meets two black cells, the other one | `cmp::max`, so that unequal black heights make `is_valid` false | high; not executed | RedBlack.ValidateAsWritten | RedBlack.Validate |
