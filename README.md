# Data structures in Java: a verified Dafny model

This project models four classes of the course repository: the binary search
tree (`BST`), the separate-chaining hash map (`HashMap`), and the singly and
doubly linked lists (`LinkedList`, `TwoWayLinkedList`). Each class is a Dafny
`class` with the same fields. Its methods update those fields in place with
the same loops and branches as the Java code. Ghost state ties each object to
the abstract value it represents:

- the tree held under `root`;
- the mapping `M` stored in the buckets;
- the sequence `Contents` spelled out by the nodes.

The modules are:

- `BstTree` (`bst_tree.dfy`) defines the tree as a value, the `compareTo`
  contract (`IsTotalOrder`) and the three recursive traversals. It also gives
  the trees that `insert` and `delete` leave behind, and proves what they
  preserve.
- `BinarySearchTree` (`bst.dfy`) holds the `BST` class. Its search, insert,
  path and delete walks keep a zipper (`Frame` sequence) of the nodes
  passed. It also holds the in-order iterator.
- `Hashmap` (`hashmap.dfy`) has the hashing and the power-of-two capacity
  arithmetic. The `HashMap` class stores its buckets in an `array`. `Valid`
  states that:
  - every entry sits in the bucket its key hashes to;
  - no key occurs twice;
  - `size` counts the entries.
- `MyLinkedList` (`linked_list.dfy`) and `MyTwoWayLinkedList`
  (`two_way_linked_list.dfy`) have heap nodes. A ghost sequence of nodes
  records the `next` chain, and for the two-way list also the `previous`
  chain.
- `SeqSpec` (`seq_spec.dfy`) holds the sequence functions that the list
  contracts are stated in. `Wrappers` holds `Option` and `Result`.

Java `null` results become `None`, and thrown exceptions become `Err` values.
Calls that would dereference a null reference become preconditions. So does
the one call that would corrupt the list invariant (see "Left out").
`compareTo` and `hashCode` are parameters of the objects. Element equality is
Dafny equality.

## Model

| member | source | states |
|---|---|---|
| BstTree.Inorder | src/BinarySearchTree/BST.java:89-96 | the in-order sequence has one entry per node and holds exactly the tree's elements |
| BstTree.Postorder | src/BinarySearchTree/BST.java:104-111 | the method named `postorder` visits the node first; one entry per node |
| BstTree.Preorder | src/BinarySearchTree/BST.java:119-126 | the method named `preorder` visits the node last; one entry per node |
| BstTree.InorderVisitsEachNodeOnce | src/BinarySearchTree/BST.java:89-96 | in-order traversal lists every node exactly once (as multisets) |
| BstTree.PostorderVisitsEachNodeOnce | src/BinarySearchTree/BST.java:104-111 | the `postorder` traversal lists every node exactly once |
| BstTree.PreorderVisitsEachNodeOnce | src/BinarySearchTree/BST.java:119-126 | the `preorder` traversal lists every node exactly once |
| BstTree.InorderAscending | src/BinarySearchTree/BST.java:249-256 | on an ordered tree the in-order sequence is strictly ascending |
| BstTree.OrderedCountIsCardinality | src/BinarySearchTree/BST.java:142-144 | on an ordered tree the node count equals the number of distinct elements |
| BstTree.ContainsIffMember | src/BinarySearchTree/BST.java:29-43 | on an ordered tree the comparison walk finds `e` exactly when `e` is an element |
| BstTree.InsertTreeShape | src/BinarySearchTree/BST.java:47-77 | insert leaves the tree unchanged if the walk meets `e`; otherwise it adds one node and the element `e` |
| BstTree.InsertTreeOrdered | src/BinarySearchTree/BST.java:47-77 | insert keeps the tree ordered and its elements become the old ones plus `e` |
| BstTree.OnLeftSpineIsMember | src/BinarySearchTree/BST.java:177-188 | whatever delete's locating loop finds is an element of the tree |
| BstTree.RemoveMaxCorrect | src/BinarySearchTree/BST.java:208-222 | splicing out the rightmost node removes exactly its element, which is the maximum, and keeps the order |
| BstTree.PromoteCorrect | src/BinarySearchTree/BST.java:204-223 | case 2 of delete removes exactly the node's element, keeps the order and removes one node |
| BstTree.DeleteFixedCorrect | src/BinarySearchTree/BST.java:170-226 | the deletion the comments describe removes exactly `e`, keeps the order, and removes a node iff `e` was present |
| BstTree.DeleteMissChangesNothing | src/BinarySearchTree/BST.java:189-190 | when the locating loop does not meet `e`, delete leaves the tree as it was |
| BstTree.RightSubtreeNeverFound | src/BinarySearchTree/BST.java:182-185 | no element of the root's right subtree is ever found or deleted |
| BstTree.DeleteAgreesOffDefect | src/BinarySearchTree/BST.java:173-226 | whenever delete finds `e` and avoids the wrong-side relink, it equals the intended deletion and removes exactly `e` |
| BstTree.RelinkDefectKeeps | src/BinarySearchTree/BST.java:196-202 | on the wrong-side relink the found element stays in the tree |
| BstTree.DefectKeepsElement | src/BinarySearchTree/BST.java:192-202 | when delete takes the wrong-side relink it reports success while `e` stays in the tree |
| BstTree.DeleteMissesRightChild | src/BinarySearchTree/BST.java:182-185 | tree 5(3,8): delete(8) finds nothing and keeps 8, while the intended deletion removes it; the comparator used is a total order |
| BstTree.DeleteRelinksWrongSide | src/BinarySearchTree/BST.java:197-201 | tree 5(3(-,4),8): delete(3) keeps 3, drops 8 and leaves an unordered tree; the comparator used is a total order |
| BinarySearchTree.InorderOfValid | src/BinarySearchTree/BST.java:244-256 | the iterator's list of a valid tree is ascending and has `size` entries |
| BinarySearchTree.BST.constructor | src/BinarySearchTree/BST.java:18-19 | the empty tree, valid |
| BinarySearchTree.BST.FromSeq | src/BinarySearchTree/BST.java:22-26 | the tree of the objects inserted in order: valid, and its elements are those of the array |
| BinarySearchTree.BST.Search | src/BinarySearchTree/BST.java:29-43 | the answer is the comparison walk's; on a valid tree it is membership |
| BinarySearchTree.BST.Insert | src/BinarySearchTree/BST.java:47-77 | returns false exactly on a duplicate; `size` grows on success; validity kept and `e` added |
| BinarySearchTree.BST.Path | src/BinarySearchTree/BST.java:152-168 | the nodes visited from the root, each the comparison child of the one before; the last matches `e` iff `e` is in the tree |
| BinarySearchTree.BST.Delete | src/BinarySearchTree/BST.java:173-226 | the as-written delete: found iff `e` is on the left spine; `size` drops on success; off the defect, validity is kept and exactly `e` is removed |
| BinarySearchTree.BST.GetSize | src/BinarySearchTree/BST.java:142-144 | returns `size`, which on a valid tree is the number of elements |
| BinarySearchTree.BST.Clear | src/BinarySearchTree/BST.java:283-286 | the empty tree, valid |
| BinarySearchTree.InorderIterator.constructor | src/BinarySearchTree/BST.java:239-256 | the snapshot is the in-order list, ascending and of length `size` on a valid tree |
| BinarySearchTree.InorderIterator.HasNext | src/BinarySearchTree/BST.java:260-265 | true iff the cursor is before the end of the list |
| BinarySearchTree.InorderIterator.Next | src/BinarySearchTree/BST.java:269-271 | returns the element under the cursor, or `Err(IndexOutOfBounds)` when the cursor is at the end; the cursor advances in both cases and the snapshot is kept |
| BinarySearchTree.InorderIterator.Remove | src/BinarySearchTree/BST.java:275-279 | `Err(IndexOutOfBounds)` and no change when the cursor is at the end; otherwise deletes the current element through `delete` and rebuilds the list from the new tree, `size` drops by one exactly when the element was found, and off the defect the tree stays valid and loses exactly that element |
| Hashmap.MaxCapacityIsPowerOf2 | src/hashmap/HashMap.java:20-21 | `1 << 30` is a power of two |
| Hashmap.PowerOf2Gap | src/hashmap/HashMap.java:266-268 | doubling a power-of-two capacity below the maximum never passes the maximum |
| Hashmap.TrimToPowerOf2 | src/hashmap/HashMap.java:247-254 | the least power of two that is at least the argument |
| Hashmap.FirstRoundUndone | src/hashmap/HashMap.java:242 | the first XOR-shift round is undone by `UndoFirstRound` |
| Hashmap.SecondRoundUndone | src/hashmap/HashMap.java:243 | the second XOR-shift round is undone by `UndoSecondRound` |
| Hashmap.SupplementalHashInvertible | src/hashmap/HashMap.java:241-244 | the supplemental hash is a bijection on 32-bit codes (`Unmix` inverts it) |
| Hashmap.MaskLow | src/hashmap/HashMap.java:237 | `x & (capacity - 1)` is an index below the capacity |
| Hashmap.HashIndex | src/hashmap/HashMap.java:236-238 | the bucket index is always a valid table index |
| Hashmap.EmptyTableOk | src/hashmap/HashMap.java:81 | a table of empty buckets represents the empty map and holds no entries |
| Hashmap.EmptyTable | src/hashmap/HashMap.java:269 | a fresh table of `capacity` empty buckets, representing the empty map |
| Hashmap.AbsentFromBucket | src/hashmap/HashMap.java:129-139 | a key not found in its own bucket is not mapped |
| Hashmap.TableReplace | src/hashmap/HashMap.java:166-172 | overwriting an entry's value keeps the table invariant and the entry count |
| Hashmap.TableAppend | src/hashmap/HashMap.java:184-194 | appending a new key's entry to its bucket keeps the invariant and adds one entry |
| Hashmap.TableDrop | src/hashmap/HashMap.java:204-210 | dropping an entry keeps the invariant, unmaps its key and takes one entry away |
| Hashmap.AddEntries | src/hashmap/HashMap.java:119-121 | the set afterwards holds the old entries and those of the bucket, nothing else |
| Hashmap.AddKeys | src/hashmap/HashMap.java:152-154 | the old set plus the bucket's keys |
| Hashmap.AddValues | src/hashmap/HashMap.java:226-228 | the old set plus the bucket's values |
| Hashmap.FindKey | src/hashmap/HashMap.java:133-135 | the first position in the bucket whose key matches, or -1 when none does |
| Hashmap.HashMap.constructor | src/hashmap/HashMap.java:63-65 | an empty valid map of capacity 4 |
| Hashmap.HashMap.WithCapacity | src/hashmap/HashMap.java:69-82 | an empty valid map whose capacity is the least power of two at least the argument, capped at `1 << 30` |
| Hashmap.HashMap.Get | src/hashmap/HashMap.java:129-139 | the mapped value, or `None` for an absent key |
| Hashmap.HashMap.ContainsKey | src/hashmap/HashMap.java:91-96 | true iff the key is mapped |
| Hashmap.HashMap.ContainsValue | src/hashmap/HashMap.java:99-110 | true iff some key maps to the value |
| Hashmap.HashMap.EntrySet | src/hashmap/HashMap.java:113-126 | exactly the key-value pairs of the map |
| Hashmap.HashMap.KeySet | src/hashmap/HashMap.java:147-159 | exactly the keys of the map |
| Hashmap.HashMap.Values | src/hashmap/HashMap.java:221-233 | exactly the values of the map |
| Hashmap.HashMap.IsEmpty | src/hashmap/HashMap.java:142-144 | true iff the map is empty |
| Hashmap.HashMap.Size | src/hashmap/HashMap.java:216-218 | the number of keys |
| Hashmap.HashMap.Put | src/hashmap/HashMap.java:162-197 | returns the old value for a present key, `value` for a new key, and an error when a full table cannot grow; the map is updated and the table doubled exactly when it is half full |
| Hashmap.HashMap.ReplaceAt | src/hashmap/HashMap.java:166-172 | the entry's old value is returned and the key now maps to `value` |
| Hashmap.HashMap.ReplaceKeepsValid | src/hashmap/HashMap.java:166-172 | the table after the in-place overwrite is valid |
| Hashmap.HashMap.AddEntry | src/hashmap/HashMap.java:184-194 | the new key is mapped to `value`, validity kept |
| Hashmap.HashMap.AppendKeepsValid | src/hashmap/HashMap.java:184-194 | the table after the append and `size++` is valid |
| Hashmap.HashMap.Rehash | src/hashmap/HashMap.java:266-275 | the capacity doubles into a fresh table and the map is unchanged |
| Hashmap.HashMap.PutAll | src/hashmap/HashMap.java:272-274 | re-putting every entry of the entry set rebuilds the same map without a further rehash |
| Hashmap.HashMap.PutAllStep | src/hashmap/HashMap.java:272-274 | each re-put moves one entry from the pending set into the map, which stays below half the capacity |
| Hashmap.HashMap.PutNew | src/hashmap/HashMap.java:273 | a put of a new key into a table under half full adds it without growing |
| Hashmap.HashMap.Remove | src/hashmap/HashMap.java:200-213 | the key is unmapped (nothing changes for an absent key) |
| Hashmap.HashMap.RemoveAt | src/hashmap/HashMap.java:204-210 | the entry's key is unmapped, validity kept |
| Hashmap.HashMap.DropKeepsValid | src/hashmap/HashMap.java:204-210 | the table after the unlink and `size--` is valid |
| Hashmap.HashMap.Clear | src/hashmap/HashMap.java:85-88 | the empty map on the same table |
| Hashmap.HashMap.RemoveEntries | src/hashmap/HashMap.java:257-263 | every bucket is emptied |
| SeqSpec.DeleteInsert | src/mylinkedlist/LinkedList.java:88-105 | removing at an index what was inserted there gives the list back |
| SeqSpec.InsertDelete | src/mylinkedlist/LinkedList.java:152-174 | inserting back what was removed gives the list back |
| SeqSpec.FirstIndex | src/mylinkedlist/LinkedList.java:218-232 | the first position holding `x`, -1 iff absent |
| SeqSpec.LastIndex | src/mylinkedlist/LinkedList.java:234-248 | the last position holding `x`, -1 iff absent |
| SeqSpec.TrailingMatches | src/mylinkedlist/TwoWayLinkedList.java:238-241 | the number of elements at the end equal to `x`: all of them match and the one before does not |
| MyLinkedList.LinkedList.constructor | src/mylinkedlist/LinkedList.java:21-22 | the empty list, valid |
| MyLinkedList.LinkedList.Walk | src/mylinkedlist/LinkedList.java:207-210 | the node `steps` links after `head`, null one past the end |
| MyLinkedList.LinkedList.GetFirst | src/mylinkedlist/LinkedList.java:31-38 | the first element, or `None` when empty |
| MyLinkedList.LinkedList.GetLast | src/mylinkedlist/LinkedList.java:41-48 | the last element, or `None` when empty |
| MyLinkedList.LinkedList.AddFirst | src/mylinkedlist/LinkedList.java:51-60 | `e` prepended, validity kept |
| MyLinkedList.LinkedList.AddLast | src/mylinkedlist/LinkedList.java:63-73 | `e` appended, validity kept |
| MyLinkedList.LinkedList.Add | src/mylinkedlist/LinkedList.java:88-105 | insertion at the index; index 0 prepends, an index at or past the end appends, a negative index inserts at 1 |
| MyLinkedList.LinkedList.LinkAt | src/mylinkedlist/LinkedList.java:96-103 | the middle insertion: `e` at position `p`, validity kept |
| MyLinkedList.LinkedList.RemoveFirst | src/mylinkedlist/LinkedList.java:110-123 | removes and returns the first element; `None` and no change when empty |
| MyLinkedList.LinkedList.RemoveLast | src/mylinkedlist/LinkedList.java:127-148 | removes and returns the last element; `None` and no change when empty |
| MyLinkedList.LinkedList.Remove | src/mylinkedlist/LinkedList.java:152-174 | removes and returns the element at the index; `None` and no change out of range |
| MyLinkedList.LinkedList.Clear | src/mylinkedlist/LinkedList.java:195-198 | the empty list, valid |
| MyLinkedList.LinkedList.Contains | src/mylinkedlist/LinkedList.java:201-203 | true iff `e` is an element |
| MyLinkedList.LinkedList.Get | src/mylinkedlist/LinkedList.java:206-216 | the element at the index; the first one for a negative index; `None` one past the end |
| MyLinkedList.LinkedList.IndexOf | src/mylinkedlist/LinkedList.java:220-232 | the first position of `e`, or -1 |
| MyLinkedList.LinkedList.LastIndexOf | src/mylinkedlist/LinkedList.java:236-248 | the last position of `e`, or -1 |
| MyLinkedList.LinkedList.Set | src/mylinkedlist/LinkedList.java:252-264 | replaces the element at the index and returns the old one; out of range it is an `IndexOutOfBounds` error and nothing changes |
| MyTwoWayLinkedList.LastIndexAsWritten | src/mylinkedlist/TwoWayLinkedList.java:235-246 | -1 when every element met equals `e`; otherwise `size - 1 - d`, where `d` counts the trailing elements equal to `e` and the element before them differs from `e` |
| MyTwoWayLinkedList.AsWrittenFindsLastNonMatch | src/mylinkedlist/TwoWayLinkedList.java:235-246 | with a correct size, `lastIndexOf` answers the last position NOT holding `e`, or -1 when all do |
| MyTwoWayLinkedList.AsWrittenAgreesOnlyWhenEmpty | src/mylinkedlist/TwoWayLinkedList.java:235-246 | the as-written answer equals the last matching position only on the empty list |
| MyTwoWayLinkedList.LastIndexOfReturnsNonMatch | src/mylinkedlist/TwoWayLinkedList.java:238-241 | on [1, 2], `lastIndexOf(2)` answers 0 where 1 is intended |
| MyTwoWayLinkedList.TwoWayLinkedList.constructor | src/mylinkedlist/TwoWayLinkedList.java:19-20 | the empty list, valid |
| MyTwoWayLinkedList.TwoWayLinkedList.Walk | src/mylinkedlist/TwoWayLinkedList.java:206-209 | the node `steps` links after `head`, null one past the end |
| MyTwoWayLinkedList.TwoWayLinkedList.GetFirst | src/mylinkedlist/TwoWayLinkedList.java:29-35 | the first element, or `None` when `size` is 0 |
| MyTwoWayLinkedList.TwoWayLinkedList.GetLast | src/mylinkedlist/TwoWayLinkedList.java:38-44 | the last element, or `None` when `size` is 0 |
| MyTwoWayLinkedList.TwoWayLinkedList.AddFirst | src/mylinkedlist/TwoWayLinkedList.java:47-60 | `e` prepended, both link chains kept, `size` up by one |
| MyTwoWayLinkedList.TwoWayLinkedList.AddLast | src/mylinkedlist/TwoWayLinkedList.java:63-76 | `e` appended, both link chains kept, `size` up by one |
| MyTwoWayLinkedList.TwoWayLinkedList.Add | src/mylinkedlist/TwoWayLinkedList.java:80-99 | insertion at the index, as for the singly linked list; index 0 cuts off the nodes behind the head, any other index keeps them |
| MyTwoWayLinkedList.TwoWayLinkedList.LinkAt | src/mylinkedlist/TwoWayLinkedList.java:88-97 | the middle insertion: `e` at position `p` with its `next` and `previous` links |
| MyTwoWayLinkedList.TwoWayLinkedList.LinkedInKeepsValid | src/mylinkedlist/TwoWayLinkedList.java:92-97 | the four link writes of the middle insertion keep both chains |
| MyTwoWayLinkedList.TwoWayLinkedList.RemoveFirst | src/mylinkedlist/TwoWayLinkedList.java:104-117 | removes and returns the first element; the old head stays reachable through `previous` |
| MyTwoWayLinkedList.TwoWayLinkedList.RemoveLast | src/mylinkedlist/TwoWayLinkedList.java:121-142 | removes and returns the last element, or `None` when `size` is 0; the nodes behind the head are kept unless the list becomes empty |
| MyTwoWayLinkedList.TwoWayLinkedList.TruncatedKeepsValid | src/mylinkedlist/TwoWayLinkedList.java:136-139 | cutting the chain after the new tail keeps both chains |
| MyTwoWayLinkedList.TwoWayLinkedList.Remove | src/mylinkedlist/TwoWayLinkedList.java:146-167 | removes and returns the element at the index; `None` and no change out of range; the nodes behind the head grow by the old first element when index 0 is removed from a list that stays non-empty, are kept when another index is removed, and are gone once the list is empty |
| MyTwoWayLinkedList.TwoWayLinkedList.UnlinkAt | src/mylinkedlist/TwoWayLinkedList.java:157-165 | the middle removal: the element at the index leaves both chains |
| MyTwoWayLinkedList.TwoWayLinkedList.UnlinkedKeepsValid | src/mylinkedlist/TwoWayLinkedList.java:162-164 | the two link writes of the middle removal keep both chains |
| MyTwoWayLinkedList.TwoWayLinkedList.Clear | src/mylinkedlist/TwoWayLinkedList.java:188-190 | no nodes, while `size` keeps its value |
| MyTwoWayLinkedList.TwoWayLinkedList.Contains | src/mylinkedlist/TwoWayLinkedList.java:193-202 | true iff `e` is an element |
| MyTwoWayLinkedList.TwoWayLinkedList.Get | src/mylinkedlist/TwoWayLinkedList.java:205-215 | the element at the index; the first one for a negative index; `None` one past the end |
| MyTwoWayLinkedList.TwoWayLinkedList.IndexOf | src/mylinkedlist/TwoWayLinkedList.java:219-231 | the first position of `e`, or -1 |
| MyTwoWayLinkedList.TwoWayLinkedList.LastIndexOf | src/mylinkedlist/TwoWayLinkedList.java:235-246 | the as-written backward walk over the `previous` chain, including nodes left behind the head |
| MyTwoWayLinkedList.TwoWayLinkedList.LastIndexOfFixed | src/mylinkedlist/TwoWayLinkedList.java:233-246 | the last position of `e`, or -1, as the comment promises |
| MyTwoWayLinkedList.TwoWayLinkedList.Set | src/mylinkedlist/TwoWayLinkedList.java:250-262 | replaces and returns the element at the index (a negative index means the first); `None` and no change past `size`; the nodes behind the head are kept |

## Left out

- `main`, `toString` and the printing traversals are left out. `inorder`, `postorder` and `preorder` become functions that return the visiting order instead of printing it.
- `getRoot` and `createNewNode` of `BST.java` are trivial accessors. `TreeNode` is the `Tree` datatype.
- `BinarySearchTree.BST`: the nodes are an immutable `Tree` value held in `root`, not heap objects. The as-written delete can make one node the child of two parents, so the value model does not capture that aliasing or later in-place updates through it. Case 2's `current.element = rightMost.element` is a rebuilt node.
- `BinarySearchTree.BST.Delete`: validity and element removal are promised only away from the wrong-side relink, because on that branch the source breaks the ordering (see Findings).
- The iterators of `LinkedList` and `TwoWayLinkedList` are not part of this model. Neither are the array constructors of either list, which build through `add(size - 1, ...)`.
- `HashMap.toString` is left out. The load factor is fixed at the default 0.5, so the test `size >= capacity * loadFactorThreshold` is `2 * size >= capacity`. The float threshold constructor argument is not modelled.
- `hashCode` is a parameter `K -> bv32` of the map, and `equals` is Dafny equality. `compareTo` is a parameter constrained to a total order consistent with equality.
- Null keys and values are not modelled. `get` returns `None` only for an absent key.
- Java's `HashSet` iteration order is unspecified. `Rehash` picks entries in an arbitrary order.
- `Hashmap.HashMap.Put`: `size` and `capacity` are unbounded integers. The RuntimeException at the maximum capacity is the `Err(ExceedingMaximumCapacity)` result.
- `Hashmap.MaskLow` computes the low bits arithmetically instead of with a bitwise `&`. They are equal for a power-of-two capacity.
- An `Entry` object shared between the table and an entry set is a value here. An update of a value in place is a new entry in the same position.
- The lists' frames name the list object and its own nodes (`Spine`, `Nodes`) but carry no footprint that keeps two lists' nodes apart, so the model says nothing about two lists sharing nodes.
- `MyLinkedList.LinkedList.Add` requires `index >= 0 || size >= 2`. A negative index on a one-element list links a node after `head` but leaves `tail` on `head`, which breaks the list invariant that the model keeps.
- `MyLinkedList.LinkedList.Get` requires `index <= size`. Further out, the walk dereferences null.
- `MyTwoWayLinkedList.TwoWayLinkedList.GetFirst`, `GetLast`, `RemoveFirst`, `RemoveLast`, `Remove`, `Add` and `Set` require that the walk they perform stays on nodes. After `clear`, which leaves `size` as it was, the source dereferences null there. `Add` with a negative index also needs at least two nodes: on a one-element list the source dereferences the null successor of `head` (TwoWayLinkedList.java:96), and on an empty one `head` itself.

## Findings

| source | as written | input that shows it | evidently intended | confidence | as-written member | corrected member |
|---|---|---|---|---|---|---|
| src/BinarySearchTree/BST.java:182-185 | the locating loop of `delete` moves to the left child also when `e` is greater | tree from inserting 5, 3, 8; `delete(8)` | move to the right child, so 8 is found and removed | not executed | BstTree.DeleteMissesRightChild | BstTree.DeleteFixedCorrect |
| src/BinarySearchTree/BST.java:197-201 | case 1 compares `e` with the found node's own element, which is equal, so it always relinks the parent's right link | tree from inserting 5, 3, 8, 4; `delete(3)` returns true, keeps 3 and drops 8 | relink the parent link that leads to the found node | not executed | BstTree.DeleteRelinksWrongSide | BstTree.DeleteFixedCorrect |
| src/mylinkedlist/TwoWayLinkedList.java:238 | `lastIndexOf` steps back while the element equals `e` | list [1, 2]; `lastIndexOf(2)` answers 0 | step back while the element differs, so the answer is 1 | not executed | MyTwoWayLinkedList.LastIndexOfReturnsNonMatch | MyTwoWayLinkedList.TwoWayLinkedList.LastIndexOfFixed |
