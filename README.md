# Ordered collections of the data-structure assignments, in Dafny

This project models four C collections that all keep their elements in
order:

- the **word list** of `assignment_3/assignment3.p/main.c`: a sorted doubly
  linked list of word records (`tWord`: a word and its frequency). It has
  `head`/`rear` pointers and `rlink`/`llink` links. Reading a word again bumps
  its frequency.
- the **word dictionary** of `assignment_2/assignment02.p/main.c`: a singly
  linked list in word order (`link`). `connect_by_frequency` threads a second
  chain (`link2`, from `head2`) through the same nodes, in descending
  frequency with ties broken by word.
- the **generic list** of `assignment04/adt_dlist.c`: a sorted doubly linked
  list of payloads of any type. The order is a comparator given to
  `createList`.
- the **binary search tree** of `assignment05/bst.c`: an unbalanced BST of
  payloads, ordered by the comparator given to `BST_Create`.

Modules:

- `Order` (`order.dfy`) holds what the four collections share:
  - what a three-way comparator is (`IsComparator`);
  - strict ascent of a sequence;
  - three reference functions on sorted sequences: `Find` (the first
    element equal to a key), `InsertSorted` (insertion before the first
    element not below it) and `Remove` (removal of the first element equal
    to a key);
  - the lemmas relating them.
- `Words` (`words.dfy`) holds:
  - the word record, `strcmp`, `compare_by_word`, `compare_by_freq` and
    `createWord`;
  - `AddWord`, the effect of reading one word.
- The list collections are classes whose methods change their fields in
  place:
  - `WordList` (`word_list.dfy`), `WordDictionary` (`word_dictionary.dfy`)
    and `GenericList` (`generic_list.dfy`);
  - each list carries ghost `Nodes` and `Contents` sequences;
  - each operation is specified by the change it makes to `Contents`.
- In `Bst` (`bst.dfy`) a tree is a value of a datatype and the header is a
  class:
  - each operation is specified by its effect on the in-order sequence of
    payloads;
  - the search-tree invariant is proved to agree with the node-by-node
    ordering property.

Conventions:

- An allocation that may fail is an `allocFails` parameter.
- A callback is an out-value: the payload handed to it, or the sequence of
  payloads it receives.
- The C return codes (0, 1, 2) are kept.

## Model

| member | source | states |
|---|---|---|
| Words.Strcmp | assignment_2/assignment02.p/main.c:89-95 | the word comparison is -1, 0 or 1, and 0 exactly when the two words are equal |
| Words.StrcmpAntisymmetric | assignment_2/assignment02.p/main.c:89-95 | swapping the two words negates the comparison |
| Words.StrcmpTransitive | assignment_2/assignment02.p/main.c:89-95 | word order is transitive |
| Words.CompareByWord | assignment_3/assignment3.p/main.c:136-142 | records compare as their words do; two records are equal in this order exactly when their words are equal |
| Words.CompareByWordIsComparator | assignment_3/assignment3.p/main.c:136-142 | `compare_by_word` is a three-way comparator (reflexive, antisymmetric in sign, transitive) |
| Words.CompareByFreq | assignment_2/assignment02.p/main.c:99-109 | a higher frequency sorts first; equal frequencies fall back on the word; 0 exactly for equal records |
| Words.CompareByFreqIsComparator | assignment_2/assignment02.p/main.c:99-109 | `compare_by_freq` is a three-way comparator |
| Words.CreateWord | assignment_2/assignment02.p/main.c:194-203 | no record exactly when the allocation fails; otherwise the record holds the word with frequency 1 |
| Words.AddWordAfterScan | assignment_2/assignment02.p/main.c:290-305 | where the word-order scan stops, reading a word either bumps the stored record there (when its word matches) or inserts the new record there |
| Words.AddWordKeepsAscending | assignment_2/assignment02.p/main.c:290-305 | reading a word keeps the records strictly ascending by word |
| Words.AddWordCounts | assignment_2/assignment02.p/main.c:290-305 | reading a word raises that word's count by one and leaves every other word's count unchanged |
| Words.BumpCounts | assignment_2/assignment02.p/main.c:296-298 | `freq++` on a stored record adds one occurrence of its word and of no other |
| Words.InsertCounts | assignment_2/assignment02.p/main.c:301-304 | inserting a new record with frequency 1 adds one occurrence of its word and of no other |
| Words.ScanDecides | assignment_3/assignment3.p/main.c:483-498 | where `_search` stops, the record there is the one found and the one removed when its word matches; otherwise no record has the word |
| WordList.List.constructor | assignment_3/assignment3.p/main.c:262-270 | `createList` gives an empty, consistent list with count 0 and null `head` and `rear` |
| WordList.List.Search | assignment_3/assignment3.p/main.c:483-498 | `pLoc` is the first node whose word is not below the key and `pPre` the node before it; `found` holds exactly when some stored word equals the key's |
| WordList.List.AddNode | assignment_3/assignment3.p/main.c:292-311 | 2 and the word's frequency bumped when it is stored; 1 and the record inserted in word order when it is new; 0 and nothing changed when the allocation fails; the list stays consistent |
| WordList.List.BumpFreq | assignment_3/assignment3.p/main.c:298-301 | the matching record's frequency goes up by one and no node moves |
| WordList.List.CountUp | assignment_3/assignment3.p/main.c:309 | after `_insert`, `count++` restores the full list invariant |
| WordList.List.CountDown | assignment_3/assignment3.p/main.c:326 | after `_delete`, `count--` restores the full list invariant |
| WordList.List.RemoveNode | assignment_3/assignment3.p/main.c:317-329 | 0 and nothing changed when the word is absent; otherwise 1, the stored record handed back, and that record alone removed |
| WordList.List.SearchNode | assignment_3/assignment3.p/main.c:336-347 | hands back exactly the stored record with the key's word, and returns 1 exactly when there is one |
| WordList.List.CountList | assignment_3/assignment3.p/main.c:350-353 | the count is the number of stored records |
| WordList.List.EmptyList | assignment_3/assignment3.p/main.c:357-368 | 1 exactly when no record is stored, 0 exactly when one is |
| WordList.List.TraverseList | assignment_3/assignment3.p/main.c:371-379 | the callback sees every record once, in ascending word order |
| WordList.List.TraverseListR | assignment_3/assignment3.p/main.c:382-390 | the callback sees every record once, in descending word order, via the `llink` chain from `rear` |
| WordList.List.Destroy | assignment_3/assignment3.p/main.c:273-286 | every record is released once, in forward order, and the list is left empty |
| WordList.List.Insert | assignment_3/assignment3.p/main.c:397-436 | 0 leaves the list untouched; 1 splices a fresh node at the scan position with both links and `rear` correct, keeping word order |
| WordList.List.LinkFirst | assignment_3/assignment3.p/main.c:407-420 | the new node becomes `head` with null `llink`, the old head links back to it, and `rear` is set when the list was empty |
| WordList.List.LinkAfter | assignment_3/assignment3.p/main.c:421-435 | the new node goes right after `pPre`, its successor links back to it, and it becomes `rear` exactly when it has no successor |
| WordList.List.Delete | assignment_3/assignment3.p/main.c:441-476 | hands back the node's record and unlinks exactly that node, updating `head`/`rear` at the ends |
| WordList.List.UnlinkFirst | assignment_3/assignment3.p/main.c:445-457 | the second node becomes `head` with null `llink`; a list of one becomes empty with null `rear` |
| WordList.List.UnlinkAfter | assignment_3/assignment3.p/main.c:459-475 | `pPre` is linked to the node after `pLoc` and back; removing the last node makes `pPre` the `rear` |
| WordDictionary.CreateList | assignment_2/assignment02.p/main.c:215-224 | no list exactly when the allocation fails; otherwise an empty list whose word chain and frequency chain are both empty |
| WordDictionary.List.Search | assignment_2/assignment02.p/main.c:243-260 | `pLoc` is the first node whose word is not below the key, `pPre` its predecessor, and `found` holds exactly when the word is stored |
| WordDictionary.List.AddNode | assignment_2/assignment02.p/main.c:290-305 | 2 and the frequency bumped for a stored word; 1 and the record inserted in word order for a new one; 0 and nothing changed on allocation failure |
| WordDictionary.List.BumpFreq | assignment_2/assignment02.p/main.c:296-298 | the matching record's frequency goes up by one and the word chain is unchanged |
| WordDictionary.List.Insert | assignment_2/assignment02.p/main.c:266-285 | 0 leaves the list untouched; 1 splices a fresh node with empty `link2` at the scan position and counts it |
| WordDictionary.List.LinkFirst | assignment_2/assignment02.p/main.c:274-277 | the new node becomes `head`, in front of the old first node |
| WordDictionary.List.LinkAfter | assignment_2/assignment02.p/main.c:278-281 | the new node goes right after `pPre` |
| WordDictionary.List.CountUp | assignment_2/assignment02.p/main.c:283 | `count++` restores the full list invariant after the splice |
| WordDictionary.List.Destroy | assignment_2/assignment02.p/main.c:226-237 | every record is released once, in word order, and both chains are left empty |
| WordDictionary.ByFrequencyPermutes | assignment_2/assignment02.p/main.c:346-370 | the frequency order holds exactly the records of the word order |
| WordDictionary.ByFrequencyAscending | assignment_2/assignment02.p/main.c:346-370 | built from records with distinct words, the frequency order ascends strictly by `compare_by_freq` |
| WordDictionary.ByFrequencyStep | assignment_2/assignment02.p/main.c:354-366 | linking the next record in front of the first record it does not compare above extends the frequency order by that record |
| WordDictionary.List.ConnectByFrequency | assignment_2/assignment02.p/main.c:346-370 | afterwards the `link2` chain from `head2` holds every node exactly once, in `ByFrequency` order, strictly ascending by `compare_by_freq`; the word chain is unchanged |
| WordDictionary.List.ConnectNode | assignment_2/assignment02.p/main.c:350-369 | one outer pass: the frequency chain now orders the records of the first i+1 word-chain nodes, and `next` is the next word-chain node |
| WordDictionary.List.FreqScan | assignment_2/assignment02.p/main.c:351-357 | the inner loop stops at the first chain node the record does not compare above, after every node it does compare above |
| WordDictionary.List.SearchByFreq | assignment_2/assignment02.p/main.c:316-332 | `pLoc` is the first frequency-chain node not below the key by `compare_by_freq`, and `found` holds exactly when that node's record is the key; on a strictly ascending chain, `found` holds exactly when the key is in the chain |
| WordDictionary.List.LinkByFreq | assignment_2/assignment02.p/main.c:334-344 | `pLoc` is spliced into the frequency chain right after `pPre` (at `head2` when `pPre` is null), and nothing else moves |
| WordDictionary.List.LinkFreqFirst | assignment_2/assignment02.p/main.c:336-339 | `pLoc` becomes the first node of the frequency chain |
| WordDictionary.List.LinkFreqAfter | assignment_2/assignment02.p/main.c:340-343 | `pLoc` goes into the frequency chain right after `pPre` |
| GenericList.CreateList | assignment04/adt_dlist.c:114-126 | no list exactly when the allocation fails; otherwise an empty list ordered by the given comparator |
| GenericList.List.constructor | assignment04/adt_dlist.c:114-126 | the new list is empty and consistent, and keeps the comparator |
| GenericList.List.Search | assignment04/adt_dlist.c:78-106 | stops at the first payload equal to the key or above it; `found` holds exactly when some payload equals the key |
| GenericList.List.AddNode | assignment04/adt_dlist.c:148-167 | 2 with the stored equal payload for the callback and nothing changed; 1 with the payload inserted in order; 0 with nothing changed when the allocation fails |
| GenericList.List.RemoveNode | assignment04/adt_dlist.c:172-186 | 0 and nothing changed when no payload equals the key; otherwise 1, the stored payload handed back, that payload alone removed, and the count down by one |
| GenericList.List.SearchNode | assignment04/adt_dlist.c:193-206 | hands back exactly the stored payload equal to the key, and returns 1 exactly when there is one |
| GenericList.List.CountList | assignment04/adt_dlist.c:209-211 | the count is the number of stored payloads |
| GenericList.List.EmptyList | assignment04/adt_dlist.c:215-222 | 1 exactly when the list is empty, 0 exactly when it is not |
| GenericList.List.TraverseList | assignment04/adt_dlist.c:225-233 | the callback sees every payload once, in ascending order |
| GenericList.List.TraverseListR | assignment04/adt_dlist.c:236-243 | the callback sees every payload once, in descending order, via `llink` from `rear` |
| GenericList.List.Destroy | assignment04/adt_dlist.c:129-141 | the callback receives every payload once, in forward order, and the list is left empty |
| GenericList.List.Insert | assignment04/adt_dlist.c:10-44 | 0 leaves the list untouched; 1 splices a fresh node at the scan position with both links and `rear` correct, and counts it |
| GenericList.List.LinkFirst | assignment04/adt_dlist.c:16-24 | the new node becomes `head` with null `llink`, the old head links back to it, and `rear` is set when the list was empty |
| GenericList.List.LinkAfter | assignment04/adt_dlist.c:26-38 | the new node goes right after `pPre` and becomes `rear` exactly when it has no successor |
| GenericList.List.LinkBetween | assignment04/adt_dlist.c:27-33 | inside the list, the new node goes between `pPre` and its successor, which links back to it |
| GenericList.List.LinkLast | assignment04/adt_dlist.c:27-37 | after the last node, the new node becomes `rear` |
| GenericList.List.CountUp | assignment04/adt_dlist.c:40 | `count++` restores the full list invariant after the splice |
| GenericList.List.CountDown | assignment04/adt_dlist.c:70 | `count--` restores the full list invariant after the unlink |
| GenericList.List.Delete | assignment04/adt_dlist.c:49-71 | hands back the node's payload, unlinks exactly that node, keeps `head` and `rear` right, and counts one fewer |
| GenericList.List.UnlinkFirst | assignment04/adt_dlist.c:52-57 | the second node becomes `head` with null `llink`; a list of one becomes empty |
| GenericList.List.UnlinkAfter | assignment04/adt_dlist.c:58-67 | `pPre` is linked to the node after `pLoc` and back; removing the last node makes `pPre` the `rear` |
| GenericList.KeyScanDecides | assignment04/adt_dlist.c:84-104 | where the key-first scan stops, lookup and removal are decided by the payload there |
| GenericList.KeyScanInserts | assignment04/adt_dlist.c:148-162 | when the scan stops at a payload above the new one, inserting it there is the sorted insertion |
| GenericList.List.InsertFirstAsWritten | assignment04/adt_dlist.c:16-24 | as written, inserting at the head never sets `rear`: in an empty list, `rear` stays null |
| GenericList.FirstInsertLosesRear | assignment04/adt_dlist.c:16-24 | one insertion into an empty list leaves `head` set and `rear` null |
| GenericList.List.DeleteFirstAsWritten | assignment04/adt_dlist.c:52-57 | as written, deleting the head never clears `rear`: deleting the only node leaves `rear` at the released node |
| GenericList.LastDeleteLeavesRear | assignment04/adt_dlist.c:52-57 | deleting the only payload leaves an empty list whose `rear` points at the released node |
| GenericList.List.AddNodeAsWritten | assignment04/adt_dlist.c:148-167 | as written, a new payload is reported stored (1) even when the allocation fails and nothing was stored |
| GenericList.OverflowReportsSuccess | assignment04/adt_dlist.c:159-161 | with allocation failing, `addNode` returns 1 and the list stays empty |
| Order.FindAfterInsert | assignment04/adt_dlist.c:148-167 | after a new payload is stored, a search finds it for its own key and finds the same as before for every other key |
| Order.FindAfterRemove | assignment04/adt_dlist.c:172-186 | after a removal, a search for the removed key finds nothing and a search for any other key finds the same as before |
| Order.RemoveInsertSorted | assignment04/adt_dlist.c:148-186 | removing a payload just added restores the list |
| Order.InsertSortedRemove | assignment04/adt_dlist.c:148-186 | adding back a payload just removed restores the list |
| Order.InsertSortedPermutes | assignment04/adt_dlist.c:148-167 | a sorted insertion adds exactly the new payload |
| Order.RemovePermutes | assignment04/adt_dlist.c:172-186 | a removal takes out exactly the payload found, and changes nothing when none is found |
| Order.InsertSortedKeepsAscending | assignment04/adt_dlist.c:148-167 | inserting a payload not yet stored keeps the list strictly ascending |
| Order.RemoveSortedKeepsAscending | assignment04/adt_dlist.c:172-186 | a removal keeps the list strictly ascending |
| Bst.BstParts | assignment05/bst.c:156-195 | both subtrees of a search tree are search trees, below and above the root |
| Bst.BstJoin | assignment05/bst.c:107-131 | two search trees below and above a payload join under it into a search tree |
| Bst.OrderedIffBst | assignment05/bst.c:107-131 | the node-by-node ordering property holds exactly when the in-order payloads ascend strictly |
| Bst.LeftSide | assignment05/bst.c:209-210 | for a key below the root, search, insertion and deletion on the whole tree reduce to the left subtree |
| Bst.RightSide | assignment05/bst.c:212-213 | for a key above the root, search, insertion and deletion reduce to the right subtree |
| Bst.AtRoot | assignment05/bst.c:206-207 | a key equal to the root is found there, and deleting it leaves the two subtrees in order |
| Bst.SearchAt | assignment05/bst.c:201-215 | any node `_search` returns holds a payload equal to the key |
| Bst.SearchAtFinds | assignment05/bst.c:201-215 | on a search tree, `_search` finds exactly the payload that a scan of the in-order sequence finds, or nothing |
| Bst.MakeNode | assignment05/bst.c:134-143 | no node exactly when the allocation fails; otherwise a leaf holding the payload |
| Bst.InsertAt | assignment05/bst.c:107-131 | for a new key, 1 and a tree whose in-order sequence is the sorted insertion; for a present key, 2, the stored payload, and the tree unchanged |
| Bst.MinNode | assignment05/bst.c:186-189 | the leftmost node has no left child and holds the smallest payload |
| Bst.DeleteAt | assignment05/bst.c:156-195 | hands back the payload equal to the key (or none) and leaves a search tree whose in-order sequence has exactly that payload removed |
| Bst.SuccessorReplaces | assignment05/bst.c:185-192 | putting the successor in place of the root and removing it from the right side keeps the in-order sequence minus the root |
| Bst.DeleteAtAsWritten | assignment05/bst.c:156-195 | as written, deleting a root with two children yields the left subtree, the successor, and the left subtree again |
| Bst.SuccessorAboveLeft | assignment05/bst.c:186-191 | the successor is above every payload of the left subtree, so the line-191 recursion into the left subtree never finds it |
| Bst.PostOrder | assignment05/bst.c:146-152 | the post-order sequence that `_destroy` follows holds every payload of the tree exactly as often as the in-order sequence |
| Bst.DestroyAt | assignment05/bst.c:146-152 | the callback receives the payloads in post-order, each payload once |
| Bst.Tree.constructor | assignment05/bst.c:13-22 | a new tree is empty with count 0 and keeps the comparator |
| Bst.Create | assignment05/bst.c:13-22 | no tree exactly when the allocation fails; otherwise an empty tree |
| Bst.Tree.Insert | assignment05/bst.c:38-58 | 0 and nothing changed on allocation failure; 1, one more payload, and the sorted insertion for a new key; 2, the stored payload for the callback, and nothing changed for a present key |
| Bst.Tree.InsertAsWritten | assignment05/bst.c:38-58 | as written, the duplicate callback receives the new payload rather than the stored one |
| Bst.Tree.Delete | assignment05/bst.c:64-72 | hands back the stored payload equal to the key (or none), removes exactly that payload, and counts one fewer exactly when something was removed |
| Bst.Tree.Search | assignment05/bst.c:78-86 | the result is the stored payload equal to the key, or none |
| Bst.Tree.Destroy | assignment05/bst.c:26-30 | every payload is released once, in post-order, and the tree is left empty with count 0 |
| Bst.TwoChildDeleteScenario | assignment05/bst.c:191 | deleting 5 from the tree 3 <- 5 -> 8 gives in-order [3, 8, 3] as written and [3, 8] corrected |
| Bst.DuplicateScenario | assignment05/bst.c:127 | inserting (1, 20) next to the stored (1, 10): the callback receives (1, 20) as written and (1, 10) corrected |

## Left out

- Memory release is not modelled: `free`, `destroyWord` and `strdup`
  copies. A released node simply leaves the ghost `Nodes` sequence.
  `Destroy` empties the header instead of freeing it.
- Two reads of released memory in the source cannot be expressed in a
  model without `free`, so the model reads the value before the release:
  - `assignment_3/assignment3.p/main.c:459-475`: `_delete` frees `pLoc` in
    its end-of-list branch and then tests `pLoc->rlink` again in a second
    `if`. `WordList.List.UnlinkAfter` models the two `if`s as one if/else.
  - `assignment04/adt_dlist.c:133-138`: `destroyList` reads `cur->rlink`
    after `free(prev)` where `prev == cur`. `GenericList.List.Destroy`
    reads the link first.
- The node made at `assignment05/bst.c:39` leaks on a duplicate key:
  neither `_insert` nor `BST_Insert` frees it. The value model of the tree
  has no heap, so it cannot show the lost node.
- WordList.List.BumpFreq, WordDictionary.List.BumpFreq: `freq` is a C
  `int`, but the model's frequency is unbounded. Wrap-around after 2^31 − 1
  readings of one word is not modelled.
- Words.CompareByFreq: returns the difference `p2->freq - p1->freq` like the
  code, but assumes it does not overflow. Frequencies are positive counts,
  so it cannot.
- `createList` in `assignment_3/assignment3.p/main.c:262-270` writes through
  the `malloc` result without a NULL check. `WordList.List.constructor`
  therefore has no failure case.
- `createWord` in `assignment_3/assignment3.p/main.c:506-521` can also fail
  on `strdup`. `Words.CreateWord` has a single `allocFails` for both
  allocations.
- Input and output are not modelled: the `main` functions, `get_action`,
  `input_word`, `print_word`, `print_dic` and `print_dic_by_freq`. They read
  files and the terminal and print.
- `BST_Traverse`, `BST_TraverseR`, `printTree`, `BST_Count`, `_traverse`,
  `_traverseR` and `_inorder_print` (`assignment05/bst.c:90-102`,
  `218-224`) are declared without bodies, so there is nothing to model.
- Aliasing of tree nodes: the BST is a value model.
  - The recursive helpers give back the replacement subtree, which the C
    code stores into the parent's link. Updating a node in place and
    sharing a node are not represented.
  - The as-written two-child deletion makes the right link point at the
    left subtree, so both children are the same nodes. The model shows
    this as a tree with two equal left and right subtrees.
- `connect_by_frequency` is the only operation that builds the frequency
  chain. A later `addNode` leaves that chain stale in the C code: bumped
  frequencies are not re-sorted and new nodes are not linked. So
  `WordDictionary.List.AddNode` promises nothing about the frequency chain.
- Callbacks are out-values: the payload passed to the duplicate callback,
  or the sequence passed to the traversal and destroy callbacks. Calls into
  user code are not modelled.
  - `bst.c` calls the duplicate callback inside `_insert`; the model hands
    the payload back from `Bst.Tree.Insert`.
- GenericList.List.AddNodeAsWritten: the second `_search` call of `addNode`
  (`assignment04/adt_dlist.c:159`) returns what the first one did on an
  unchanged list. The model searches once and reuses the result. It also
  splices with the corrected `_insert`, so that its only defect is the one
  at lines 159-161.
- GenericList.List.LinkAfter: the `else` branch of `_insert`
  (`assignment04/adt_dlist.c:26-38`) is split into `LinkBetween` and
  `LinkLast` by whether the new node has a successor. This split is how the
  model proves the two `if`s of lines 31-37.
- `BST_Insert` allocates the node before it descends
  (`assignment05/bst.c:39-40`), so an allocation failure leaves the tree
  unchanged; `Bst.Tree.Insert` returns 0 with root and count as before.

## Findings

| source | as written | input that shows it | evidently intended | confidence | as-written member | corrected member |
|---|---|---|---|---|---|---|
| assignment04/adt_dlist.c:16-24 | inserting at the head never sets `rear`, so the first node added to an empty list leaves `rear` null | `addNode` of any payload on a new empty list; `traverseListR` then visits nothing | `rear` points at the new node when the list was empty | not executed | GenericList.List.InsertFirstAsWritten, GenericList.FirstInsertLosesRear | GenericList.List.LinkFirst |
| assignment04/adt_dlist.c:52-57 | deleting the head never clears `rear`, so deleting the only node leaves `rear` at the released node | `removeNode` of the only payload of a one-element list; `traverseListR` then reads released memory | `rear` becomes null when the list becomes empty | not executed | GenericList.List.DeleteFirstAsWritten, GenericList.LastDeleteLeavesRear | GenericList.List.UnlinkFirst |
| assignment04/adt_dlist.c:159-161 | the result of `_insert` is ignored, so `addNode` returns 1 when the allocation fails | `addNode` of a new payload when `malloc` returns NULL | return 0 on overflow, as the header comment of `addNode` says | not executed | GenericList.List.AddNodeAsWritten, GenericList.OverflowReportsSuccess | GenericList.List.AddNode |
| assignment05/bst.c:191 | the successor is deleted from the left subtree and the result is stored as the right child; the right subtree is lost and the left subtree appears twice | `BST_Delete` of 5 from the tree with root 5 and children 3 and 8: in-order 3, 8, 3 | delete the successor from the right subtree and hand back the deleted node's payload | not executed | Bst.DeleteAtAsWritten, Bst.TwoChildDeleteScenario | Bst.DeleteAt |
| assignment05/bst.c:127 | the duplicate callback receives the new payload, not the one already in the tree | `BST_Insert` of (1, 20) into a tree holding (1, 10), keyed on the first component | the callback receives the stored payload, as the generic list's `addNode` does | not executed | Bst.Tree.InsertAsWritten, Bst.DuplicateScenario | Bst.Tree.Insert |
