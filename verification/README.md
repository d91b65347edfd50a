# Verified model of five C data structures

This project is a Dafny model of the five in-memory data structures of the
`data-structures-c` repository, with proofs about each:

- **HashTable.c**: a separate-chaining hash table of people.
  - Storage is an array of `INITIAL_LEN` (7) buckets and a `num_elements` counter.
  - Each bucket is a chain kept in non-decreasing `strcmp` order of `first_name`.
  - The bucket is chosen by a byte-sum hash of the lower-cased `first_name ++ last_name`, reduced with C's `%` by 7.
- **SinglyLinkedList.c**: a sorted list of names. Insertion is sorted; `delete_node` stops scanning early because the list is sorted.
- **DoublyLinkedList.c**: a sorted list of names with `prev` and `next` links. Insertion is sorted; `delete_node` removes the first match.
- **BinarySearchTree.c**: an unbalanced binary search tree of `int`s.
  - Operations: insert (equal values go right), delete, remove-largest and lookup.
  - The in-order, pre-order and post-order visits are modelled as the sequences of values they print.
- **StackLinkedList.c**: a linked stack of `int`s. `pop` returns `-1` on an empty stack.

## How the code is modelled

**Lists and the stack**
- Each is a Dafny `class` with the pointers of the C `struct`, and heap `Node` objects.
- A ghost sequence `nodes` lists the nodes in list order, and a ghost `Contents` lists their names or values.
- `Valid()` ties `head`/`top`, `next` and (doubly linked) `prev` to `nodes`.
- Every method states its new `Contents` as a function of the old one. The loops that walk `current_node` are proved against those functions.

**Hash table**
- The `Table` class holds `store: array<seq<Person>>` and the counter `numElements`.
- Each chain is a sequence of records. The pointer-level splicing of a sorted chain is modelled in full in the list modules.
- `hash_function` is a method that copies into a 200-byte array, lower-cases the array in place and sums it. It is proved equal to the function `Hash`.

**Binary search tree**
- The tree is a `datatype`, and every operation is a function returning the new tree.

**Shared modules**
- `CStrings` models C strings as byte sequences without their NUL.
  - `strcmp` (ISO C section 7.24.4.2): bytes compared as `unsigned char`; the result is -1, 0 or 1, since only the sign is defined.
  - `tolower` (ISO C section 7.4.2.1): the "C" locale.
- `Chains` defines:
  - the sorted-sequence notions;
  - the positions the C scans stop at (`SplicePoint`, `ScanNotGreater`, `ProbePoint`, `FirstIndex`);
  - the lemmas that insertion at those positions keeps order and adds exactly one element.

**Assumptions**
- Plain `char` is **signed** in the hash sum, as on x86 compilers. A byte from 128 up therefore adds a negative amount. A negative sum does not need such bytes: an ASCII character below `'0'` (such as `-`) also adds a negative amount.
- `%` on `int` truncates toward zero (ISO C99 section 6.5.5, paragraph 6). `HashTable.CRem` writes this out, because Dafny's `%` is Euclidean.
- Names are at most `MAX_LEN - 1` bytes and contain no NUL (`IsName`). The 100-byte buffers hold them, and `concat_name` holds two of them.

**Hash-table operations**
- The hash table's `lookup`, `remove` and `expand` exist in HashTable.c only as commented-out prototypes (HashTable.c:58-60, 211-213).
- `main` offers "1. Look up by first and last name" (HashTable.c:100), but no code stands behind it. The model has insert, hash, create and delete only.

## Model

| member | source | states |
|---|---|---|
| CStrings.StrCmp | SinglyLinkedList.c:70 | `strcmp` yields a sign only (-1, 0, 1), and 0 exactly when the two names are equal |
| CStrings.ToLower | HashTable.c:169 | `tolower` in the "C" locale: an upper-case letter becomes its lower-case letter, every other byte is unchanged, and no result is upper-case |
| CStrings.Lower | HashTable.c:168-169 | the in-place lowering loop keeps the length of the name (byte i becomes `ToLower` of byte i, by `LowerAt`) |
| CStrings.LowerAppend | HashTable.c:165-169 | lower-casing the concatenated buffer is lower-casing each name and concatenating |
| CStrings.LowerIdempotent | HashTable.c:168-169 | lower-casing an already lower-cased name changes nothing |
| CStrings.LowerKeepsNul | HashTable.c:168-169 | `tolower` neither creates nor removes the terminating NUL the lowercase loop stops at |
| Chains.ScanLess | SinglyLinkedList.c:120-121 | the `strcmp(next, name) < 0` walk skips exactly the leading run of names strictly below `name`, and stops on the first that is not |
| Chains.SplicePoint | SinglyLinkedList.c:108-124 | the insertion index is 0 exactly when the list is empty or the head is strictly greater; the nodes it passes after the head are strictly smaller and the one after it is not |
| Chains.ScanNotGreater | DoublyLinkedList.c:132-148 | the doubly linked insertion index: every name before it is not greater than the new name, and the name at it is strictly greater |
| Chains.FirstIndex | DoublyLinkedList.c:79-97 | the index of the first node equal to the name, or the length when there is none |
| Chains.RemoveFirst | DoublyLinkedList.c:54-99 | the effect of the doubly linked `delete_node`: one element shorter when the name occurs, the same list when it does not |
| Chains.SplicePointSorted | SinglyLinkedList.c:95-125 | inserting at the splice point adds exactly one occurrence and keeps a sorted list sorted |
| Chains.ScanNotGreaterSorted | DoublyLinkedList.c:102-152 | the doubly linked insertion keeps a sorted list sorted and puts the new name after every name at or below it (equal names included) and before every greater one |
| Chains.ScanNotGreaterKeeps | DoublyLinkedList.c:102-152 | the doubly linked insertion adds exactly one occurrence and keeps sortedness |
| Chains.RemoveFirstContents | DoublyLinkedList.c:54-99 | removing the first occurrence takes exactly one copy out of the multiset when present, none otherwise |
| Chains.RemoveFirstSorted | DoublyLinkedList.c:85-91 | unlinking the first occurrence keeps a sorted list sorted |
| Chains.ProbeFindsFirst | SinglyLinkedList.c:70-84 | on a sorted list the early-stopping probe of `delete_node` lands on a match iff the name occurs, and then on its first occurrence |
| Chains.ProbePoint | SinglyLinkedList.c:70-84 | the index `delete_node` examines: 0 exactly when the list is empty or the head matches, otherwise past the head and every following name strictly below the key, stopping on the first that is not |
| SinglyLinkedList.List.constructor | SinglyLinkedList.c:33-42 | `create_list` gives an empty list with a null head |
| SinglyLinkedList.List.Insert | SinglyLinkedList.c:95-125 | the new node is linked in at `SplicePoint` (at the head iff the list is empty or the head is strictly greater), nothing else moves, exactly one occurrence is added, and sortedness is kept |
| SinglyLinkedList.List.FindSplice | SinglyLinkedList.c:108-121 | the head test and the walk select the node at index `SplicePoint - 1`, or none (a new head) when the splice point is 0 |
| SinglyLinkedList.List.SpliceAfter | SinglyLinkedList.c:110-124 | `n->next = head; head = n` or `n->next = before->next; before->next = n` inserts the node at the given index and keeps the links consistent |
| SinglyLinkedList.List.WalkBelow | SinglyLinkedList.c:116-121 | the loop stops on the node at index `ScanLess` of the names after the head |
| SinglyLinkedList.List.DeleteNode | SinglyLinkedList.c:61-91 | returns 0 on an empty list; unlinks the probed node and returns 1 when it matches, otherwise returns 0 and leaves the list unchanged; on a sorted list, returns 1 iff the name occurs, removes its first occurrence and stays sorted |
| SinglyLinkedList.List.Unlink | SinglyLinkedList.c:70-90 | `head = head->next` or `before->next = before->next->next` removes exactly the node at the given index |
| SinglyLinkedList.List.DeleteList | SinglyLinkedList.c:44-59 | advancing `head` to null releases every node once, in list order, and leaves the list empty |
| DoublyLinkedList.List.constructor | DoublyLinkedList.c:46-52 | `create_list` gives an empty list with a null head |
| DoublyLinkedList.List.Insert | DoublyLinkedList.c:102-152 | the new node is linked in before the first strictly greater name (after all equal ones), nothing else moves, exactly one occurrence is added, sortedness and `prev`/`next` consistency are kept |
| DoublyLinkedList.List.LinkPastHead | DoublyLinkedList.c:129-151 | when the head is not greater, the loop's two exits (before a greater node, or after the tail) insert at `ScanNotGreater` |
| DoublyLinkedList.List.WalkNotGreater | DoublyLinkedList.c:132-150 | the loop stops on the first node strictly greater than the name, or on the tail |
| DoublyLinkedList.List.LinkAt | DoublyLinkedList.c:111-148 | setting `n->prev`, `n->next` and the neighbours' links inserts the node at the given index and keeps `head->prev == NULL` and `n->next->prev == n` |
| DoublyLinkedList.List.DeleteNode | DoublyLinkedList.c:54-99 | returns 1 iff the name occurs; then exactly its first occurrence is unlinked, otherwise the list is unchanged; sortedness is kept |
| DoublyLinkedList.List.WalkToMatch | DoublyLinkedList.c:77-97 | the walk stops on the first node equal to the name, or runs off the end |
| DoublyLinkedList.List.UnlinkAt | DoublyLinkedList.c:65-91 | rewiring the neighbours' `next`/`prev` (or `head`) removes exactly the node at the given index and keeps the links consistent |
| DoublyLinkedList.List.DeleteList | DoublyLinkedList.c:155-169 | advancing `head` to null releases every node once, in list order, and leaves the list empty |
| HashTable.CharValue | HashTable.c:174-180 | a byte read through signed `char` is in [-128, 128), equal to the byte below 128 and congruent to it modulo 256 |
| HashTable.Weight | HashTable.c:176-179 | one character adds its value minus `'0'`: between -176 and 79, `c - '0'` for ASCII, and negative exactly for bytes below `'0'` or from 128 up |
| HashTable.CharSum | HashTable.c:174-180 | `string_sum` over a string lies between -176 and 79 times its length |
| HashTable.CRem | HashTable.c:183 | C's `% INITIAL_LEN`: congruent to the dividend, in [0, 7) for a non-negative dividend and in (-7, 0] for a negative one |
| HashTable.Hash | HashTable.c:158-186 | the hash is in (-7, 7), congruent modulo 7 to the `c - '0'` sum of the lower-cased concatenation, negative only when that sum is, and never positive when that sum is negative |
| HashTable.HashFunction | HashTable.c:158-186 | the buffer copy, in-place lower-casing loop and summing loop compute exactly `Hash(first_name, last_name)` |
| HashTable.Concatenate | HashTable.c:160-166 | `strcpy` then `strcat` into a fresh `MAX_LEN * 2` buffer leaves the two names back to back followed by a NUL |
| HashTable.LoweredSumPermutation | HashTable.c:174-180 | the lower-cased byte sum depends only on the multiset of characters |
| HashTable.HashOfPermutation | HashTable.c:165-180 | name pairs whose concatenations are permutations of each other (in particular equal concatenations) hash alike |
| HashTable.HashCaseInsensitive | HashTable.c:168-169 | hashing the lower-cased names gives the same value |
| HashTable.SumFitsInt32 | HashTable.c:174-180 | for names that fit their buffers, `string_sum` cannot overflow a 32-bit `int` |
| HashTable.HashInRange | HashTable.c:183 | when every character is ASCII from `'0'` up, the hash is a valid index in [0, 7) |
| HashTable.NegativeHashExample | HashTable.c:183 | a name pair with bytes from 128 up hashes to -5 |
| HashTable.AsciiNegativeHashExample | HashTable.c:183 | "-" as both names, pure ASCII whatever the signedness of `char`, hashes to -6 |
| HashTable.BucketIndex | HashTable.c:134-135 | the bucket used is in [0, 7), congruent to the hash, and equal to it whenever the hash is non-negative |
| HashTable.FirstNamesInsertAt | HashTable.c:139-155 | splicing a record into a chain splices its first name into the chain's first names |
| HashTable.TotalSizeUpdate | HashTable.c:130 | replacing one bucket by a chain one longer raises the total number of records by one |
| HashTable.Table.constructor | HashTable.c:112-122 | `new_hashtable` gives length 7, zero elements and every bucket empty |
| HashTable.Table.Insert | HashTable.c:125-156 | the counter rises by exactly 1, the record is spliced into its bucket at `SplicePoint` of the chain's first names (head iff empty or head strictly greater), the old records keep their order, all other buckets are unchanged, and every chain stays sorted with every record in its hash bucket |
| HashTable.Table.FindSlot | HashTable.c:139-152 | the head test and the `current_node` walk choose exactly `SplicePoint` of the chain's first names |
| HashTable.Table.KeepsChainsGood | HashTable.c:139-155 | splicing at that point keeps a chain sorted and every record in the right bucket |
| HashTable.Table.FreeChain | HashTable.c:196-203 | the inner loop visits every node of a chain once, from the head |
| HashTable.Table.DeleteTable | HashTable.c:188-210 | buckets 0 to 6 and every chain are walked, releasing every record exactly once, `num_elements` of them in all |
| BinarySearchTree.Insert | BinarySearchTree.c:32-51 | the new tree holds the old values plus exactly one copy of `value` |
| BinarySearchTree.InsertOrdered | BinarySearchTree.c:46-50 | insertion keeps the order left < node <= right (equal values go right) |
| BinarySearchTree.InsertWeaklyOrdered | BinarySearchTree.c:46-50 | insertion keeps the order left <= node <= right |
| BinarySearchTree.RemoveLargest | BinarySearchTree.c:97-111 | on a non-empty tree, the returned value plus the remaining tree hold exactly the old values |
| BinarySearchTree.RemoveLargestOrdered | BinarySearchTree.c:97-111 | on an ordered tree the removed value is the maximum, and the rest stays ordered (strictly, if it was) |
| BinarySearchTree.DeleteNode | BinarySearchTree.c:54-94 | `delete_node` with the recursive results returned: reports 0 or 1, and a 0 leaves the tree unchanged |
| BinarySearchTree.DeleteNodeElems | BinarySearchTree.c:63-93 | a reported 1 means exactly one copy of `value` was removed and nothing else |
| BinarySearchTree.DeleteAtRootElems | BinarySearchTree.c:63-86 | in each of the four child cases a match removes exactly the matched value |
| BinarySearchTree.PromoteLargestElems | BinarySearchTree.c:77-82 | replacing a two-child node by the largest of its left subtree loses exactly the node's value |
| BinarySearchTree.PromoteLargestOrdered | BinarySearchTree.c:77-82 | that replacement keeps the order left <= node <= right |
| BinarySearchTree.DeleteNodeOrdered | BinarySearchTree.c:54-94 | deletion keeps the order left <= node <= right |
| BinarySearchTree.DeleteNodeFound | BinarySearchTree.c:58-93 | on an ordered tree deletion reports 1 exactly when the value is stored |
| BinarySearchTree.DeleteNodeRemovesOne | BinarySearchTree.c:54-94 | on an ordered tree deletion removes exactly one copy of the value when present and changes nothing otherwise |
| BinarySearchTree.DeleteKeepsOnlyWeakOrder | BinarySearchTree.c:77-82 | inserting 5, 3, 3, 7 and deleting 5 leaves a tree whose root value also sits in its left subtree, so only the weak order survives deletion |
| BinarySearchTree.Lookup | BinarySearchTree.c:114-125 | the corrected search reports 0 or 1, and 1 only for a stored value |
| BinarySearchTree.LookupIsMembership | BinarySearchTree.c:114-125 | on an ordered tree the corrected search reports 1 iff the value is stored |
| BinarySearchTree.LookupReversed | BinarySearchTree.c:119-122 | the search as written (left when the node is smaller) reports 0 or 1, and 1 only for a stored value |
| BinarySearchTree.LookupReversedOnlyAtRoot | BinarySearchTree.c:116-124 | on an ordered tree the search as written finds a value only when it is at the root |
| BinarySearchTree.LookupReversedMisses | BinarySearchTree.c:119-122 | after inserting 5 then 3, the search as written misses 3 while the corrected one finds it |
| BinarySearchTree.DeleteStatusAsWritten | BinarySearchTree.c:88-94 | `delete_node` as written returns a value only on an empty subtree or a match at the root, and that value agrees with `DeleteNode` |
| BinarySearchTree.DeleteStatusUndefined | BinarySearchTree.c:90-93 | deleting a value below the root succeeds, but `delete_node` as written returns no defined value, so the caller that uses it has undefined behaviour |
| BinarySearchTree.LookupAsWritten | BinarySearchTree.c:114-125 | `lookup` as written returns 0 exactly on an empty tree and 1 exactly on a match at the root, and nothing otherwise |
| BinarySearchTree.LookupStatusUndefined | BinarySearchTree.c:119-122 | looking up a value below the root returns no defined value, so the caller that uses it has undefined behaviour |
| BinarySearchTree.InOrder | BinarySearchTree.c:139-147 | the in-order visit prints every stored value once |
| BinarySearchTree.InOrderAscending | BinarySearchTree.c:139-147 | on an ordered tree the in-order visit is ascending |
| BinarySearchTree.PreOrder | BinarySearchTree.c:150-158 | the pre-order visit prints every stored value once, the root first |
| BinarySearchTree.PostOrderAsWritten | BinarySearchTree.c:161-169 | `post_order` as written prints every stored value once |
| BinarySearchTree.PostOrderAsWrittenReversesInOrder | BinarySearchTree.c:166-168 | `post_order` as written prints the in-order sequence reversed |
| BinarySearchTree.PostOrderAsWrittenDescending | BinarySearchTree.c:161-169 | on an ordered tree `post_order` as written is descending |
| BinarySearchTree.PostOrder | BinarySearchTree.c:161-169 | a true post-order visit prints every stored value once, the root last |
| BinarySearchTree.PostOrderAsWrittenIsNotPostOrder | BinarySearchTree.c:166-168 | on the tree 2 with left child 1, `post_order` prints 2 1 where a post-order visit prints 1 2 |
| StackLinkedList.Popped | StackLinkedList.c:94-108 | popping an empty stack yields -1 and the empty stack; otherwise the top value followed by the rest is the old stack |
| StackLinkedList.PopAfterPush | StackLinkedList.c:83-108 | pushing then popping returns the pushed value and restores the previous stack |
| StackLinkedList.PopSentinel | StackLinkedList.c:99-100 | for a stack of values from 0 up, `pop` returns -1 iff the stack is empty |
| StackLinkedList.SentinelAmbiguous | StackLinkedList.c:99-107 | popping a stack holding only -1 returns the same -1 as popping an empty stack |
| StackLinkedList.Stack.constructor | StackLinkedList.c:65-71 | `create_stack` gives an empty stack with a null top |
| StackLinkedList.Stack.IsEmpty | StackLinkedList.c:74-80 | `is_empty` returns 1 when the stack is empty and 0 otherwise |
| StackLinkedList.Stack.Push | StackLinkedList.c:83-91 | the contents become `[value] + old contents`, with a fresh node on top |
| StackLinkedList.Stack.Pop | StackLinkedList.c:94-108 | returns -1 and changes nothing on an empty stack; otherwise returns the top value and removes exactly that element |
| StackLinkedList.Stack.DeleteStack | StackLinkedList.c:48-62 | advancing `top` to null releases every node once, top first, and leaves the stack empty |

## Left out

- The `main` drivers:
  - the interactive menus, `scanf` and `printf`;
  - the `fopen`/`fscanf` loading of the people file;
  - `system("PAUSE")` and `exit`.

  They are I/O around the data structures. This includes the stack driver's `is_empty(...) < 0` test (StackLinkedList.c:144).
- `print_list`, `print_list_reverse` and `print_stack` are output only. `print_list_reverse` also dereferences a null head on an empty list (DoublyLinkedList.c:205). The BST traversals are kept as the sequences they print.
- `malloc`, `calloc` and `free`:
  - Allocation is Dafny `new`, and allocation failure is not modelled.
  - The list and stack teardown routines are modelled as visiting and releasing every node once. The returned ghost sequence is the release order, and the list or stack is left empty.
  - HashTable.Table.DeleteTable returns the order in which records are released, bucket by bucket, and leaves the table unchanged. The C code does not clear the buckets either; it frees the nodes, then `store` and `h`, which the model does not represent.
  - The final `free` of the list, stack or table header is not modelled.
- `free_tree` is not part of this model. It reads `root->left` after `free(root)` (BinarySearchTree.c:133-135), which is a use after free with no defined meaning.
- `create_stack` allocates with the wrong `sizeof` (StackLinkedList.c:68). The model allocates a correct stack header.
- The hash table's `lookup`, `remove` and `expand` exist only as commented-out prototypes (HashTable.c:58-60, 211-213), so there is no code to model.
- HashTable.HashFunction, SinglyLinkedList.List.Insert and DoublyLinkedList.List.Insert require names shorter than `MAX_LEN` with no NUL inside. The `strcpy`/`strcat` overflow of the fixed buffers for longer input is not modelled.
- HashTable.Table.Insert does not model the 32-bit overflow of `num_elements`. The counter is an unbounded integer.
- HashTable.Table.Insert models a hash-table chain as a sequence of records. The `next`-pointer splicing of sorted chains, and the aliasing it involves, is modelled on the heap only in SinglyLinkedList and DoublyLinkedList.
- HashTable.Table.Insert corrects a negative hash to `BucketIndex`, where the C code indexes before the array (see Findings).
- BinarySearchTree.Insert, BinarySearchTree.DeleteNode and BinarySearchTree.RemoveLargest work on tree values. The C code rewrites `*root`, `left` and `right` in place through `struct node**`. The model therefore does not capture node identity or the reuse of the promoted node in `delete_node`.
- CStrings.StrCmp returns only the sign of `strcmp`. Callers in the source test only the sign.
- DoublyLinkedList.List.DeleteList does not keep `prev` links consistent during teardown. The C loop leaves each new head's `prev` pointing at a released node, so the loop keeps only the forward links.

## Findings

| source | as written | input that shows it | evidently intended | confidence | as-written member | corrected member |
|---|---|---|---|---|---|---|
| HashTable.c:183 | `string_sum % INITIAL_LEN` keeps the sign of a negative sum, and `store[hash_index]` then indexes before the array | first and last name both "-": sum -6, index -6, with `char` signed or not; first and last name both "é" (UTF-8 bytes 0xC3 0xA9) with signed `char`: sum -488, index -5 | a bucket index in [0, 7) | not executed | HashTable.AsciiNegativeHashExample | HashTable.BucketIndex |
| BinarySearchTree.c:119-122 | `lookup` goes left when the node is smaller than the value and right when it is greater | insert 5 then 3; `lookup(root, 3)` does not find 3 | search left for smaller values, right for greater ones, like `insert` | not executed | BinarySearchTree.LookupReversedMisses | BinarySearchTree.LookupIsMembership |
| BinarySearchTree.c:120-122 | the recursive calls of `lookup` do not return their result, so a caller that uses the result (BinarySearchTree.c:196) has undefined behaviour | insert 5 then 3; look up 3 | return the recursive result | not executed | BinarySearchTree.LookupStatusUndefined | BinarySearchTree.Lookup |
| BinarySearchTree.c:90-93 | the recursive calls of `delete_node` do not return their result, so a caller that uses the result (BinarySearchTree.c:209) has undefined behaviour | tree 5 with right child 7; delete 7 | return the recursive result (1 when the value was removed below) | not executed | BinarySearchTree.DeleteStatusUndefined | BinarySearchTree.DeleteNodeFound |
| BinarySearchTree.c:166-168 | `post_order` visits right subtree, root, left subtree | tree 2 with left child 1: prints 2 1 | left subtree, right subtree, root: 1 2 | not executed | BinarySearchTree.PostOrderAsWrittenIsNotPostOrder | BinarySearchTree.PostOrder |
