# prqueue: a binary-search-tree priority queue, in Dafny

`prqueue<T>` (prqueue.h) is a priority queue kept as a binary search tree
keyed on `int` priorities. Each priority owns one tree node. Later entries of
the same priority hang off that node in a `link` chain, oldest first, and
every node carries a `parent` pointer. `enqueue` descends by priority.
`dequeue` and `peek` take the leftmost node. `toString` walks the tree in
order, emitting each node's chain head to tail. `begin`/`next` is an
in-order cursor that climbs back up through `parent`. `clear`, `operator==`
and `operator=` complete the interface.

The project has two layers.

* **The logical queue** (modules `Listing`, `Bst`, `PrQueue`).
  * A tree is `Node(prio, value, link, left, right)`, where `link` is the
    chain of values behind the node, and `Queue` pairs the tree with the count
    `sz`.
  * Every operation is stated against the queue's *listing*: the sequence of
    `(priority, value)` entries that `toString` prints.
  * Enqueue inserts the new entry after the last entry of priority at most
    its own (`Listing.InsertAfterLE`). Dequeue removes the first entry.
  * The listing is the stable sort of the enqueued entries by priority, and
    it is the only sorted listing with the same values per priority.
* **The linked records** (modules `Arena`, `Graft`, `HeapOps`, `Cursor`).
  * The nodes are records in a store `seq<Rec<T>>`. Pointers become
    `Option<nat>` indices, and the heap is `(nodes, root, sz, curr)`.
  * A ghost `Shape` says which indices form the tree. `Fits` and `Abs` relate
    the records to the logical tree, and `Holds` is the representation
    invariant.
  * `HeapOps` performs enqueue and dequeue by pointer updates, exactly as the
    source does, and proves the result holds the tree the logical operation
    produces.
  * `Cursor` performs `begin`/`next` by following `left`, `right`, `link` and
    `parent`, and proves which listing position each call reads.
  * `Live` and `Tight` are two invariants on the `parent` fields of chain
    members, and the climb in `next` depends on them.

## Model

| member | source | states |
|---|---|---|
| PrQueue.Empty | prqueue.h:50-54 | a new queue satisfies the invariant, has size 0 and an empty listing |
| PrQueue.Size | prqueue.h:296-300 | on a valid queue the kept count equals the number of entries `toString` lists |
| PrQueue.ToString | prqueue.h:398-432 | the listing is empty exactly when there is no root; for a valid queue it is sorted by priority and has `sz` entries |
| PrQueue.Enqueue | prqueue.h:164-219 | keeps the invariant, raises the size by one, and turns the listing into the old listing with `(p, v)` placed after every entry of priority at most `p` |
| PrQueue.EnqueueValues | prqueue.h:191-202 | enqueue appends `v` to the values of priority `p` and leaves every other priority's values unchanged, so equal priorities leave in arrival order |
| PrQueue.EnqueueTreeNodes | prqueue.h:183-218 | the set of priorities gains `p`; a priority already present adds no tree node (the value joins the chain), while a new one adds exactly one node |
| PrQueue.Dequeue | prqueue.h:230-287 | on an empty queue it returns the default and changes nothing; otherwise it returns the first listed value, the listing loses exactly its first entry, the size drops by one, and the invariant is kept |
| PrQueue.Peek | prqueue.h:443-467 | returns what dequeue would return: the first listed value, or the default on an empty queue |
| PrQueue.DequeueNDrains | prqueue.h:230-287 | `n` dequeues in a row return the listing's values in order, then the default once the queue is empty, and leave the rest of the listing |
| PrQueue.Clear | prqueue.h:112-140 | the queue becomes empty with size 0, and the released entries are exactly the listed entries (as a multiset) |
| PrQueue.Equal | prqueue.h:477-502 | true exactly when the counts are equal and the two trees are identical in shape, priorities, values and chains; equal valid queues list the same entries |
| PrQueue.EqualIsStructural | prqueue.h:477-502 | the same three entries enqueued in two orders give the same listing, yet the queues compare unequal |
| PrQueue.EnqueueAllValues | prqueue.h:164-219 | after a sequence of enqueues, each priority's values are the old ones followed by the enqueued ones of that priority, in order |
| PrQueue.BuildListing | prqueue.h:164-219 | the listing of a queue built by enqueues is sorted, holds each priority's values in arrival order, and is the only listing with both properties (a stable sort) |
| PrQueue.Assign | prqueue.h:64-102 | self-assignment and assignment from an empty queue change nothing; any assignment keeps the invariant |
| PrQueue.AssignValues | prqueue.h:75-99 | assignment without clearing gives each priority this queue's values followed by the other queue's, and the sizes add up |
| PrQueue.AssignIntoEmpty | prqueue.h:64-102 | assigning into an empty queue yields the same size and the same listing as the other queue |
| Bst.Insert | prqueue.h:183-218 | the priorities gain `p` and search-tree order is kept |
| Bst.InsertCount | prqueue.h:187-218 | the node count grows by one exactly when `p` is a new priority |
| Bst.InsertElems | prqueue.h:183-218 | the in-order listing after the insertion is the old listing with `(p, v)` after every entry of priority at most `p` |
| Bst.RemoveMin | prqueue.h:236-286 | no priority is added and search-tree order is kept |
| Bst.RemoveMinElems | prqueue.h:236-286 | the removed value is the first listed value, and the remaining listing is the old one without its first entry |
| Bst.FirstIsHead | prqueue.h:456-467 | the leftmost node holds the first listed entry, which is the entry dequeue removes |
| Bst.ElemsSorted | prqueue.h:398-421 | the in-order walk of an ordered tree lists entries in non-decreasing priority |
| Bst.ClearOrder | prqueue.h:112-130 | the release order of the recursive clear holds every listed entry exactly once |
| Bst.SameTree | prqueue.h:484-499 | the paired walk returns true exactly when the two trees are equal |
| Bst.SameChain | prqueue.h:484-499 | comparing two chains node by node is true exactly when they hold the same values (and the same priority when non-empty) |
| Bst.BfsValuesAt | prqueue.h:75-99 | the breadth-first copy order, with each chain emitted after its node, keeps every priority's values in chain order |
| Bst.BfsSize | prqueue.h:75-99 | the breadth-first copy enqueues every entry exactly once |
| Listing.InsertAfterLESorted | prqueue.h:164-219 | placing a new entry after the entries of priority at most its own keeps the listing sorted and adds only that entry |
| Listing.InsertAfterLEValues | prqueue.h:191-202 | that placement appends the value to its own priority's values only |
| Arena.ElemsAbs | prqueue.h:398-421 | the tree the records hold lists, in order, the entries stored at the indices in in-order position |
| Arena.TightLive | prqueue.h:357-359 | chains whose members point back to their immediate predecessor let the climb through `parent` reach the tree node |
| Cursor.Leftmost | prqueue.h:317-319 | following `left` from a tree node reaches the first listing position of its subtree |
| Cursor.Begin | prqueue.h:313-320 | the cursor is set to the record of the first listing position, or to null when the queue is empty |
| Cursor.Next | prqueue.h:340-385 | a call at position `k` writes the `k`-th listed entry and moves to position `k + 1` returning true; on the last entry it returns false and leaves the cursor on the root; a null cursor writes nothing |
| Cursor.NextFixed | prqueue.h:340-385 | as `Cursor.Next`, except that after the last entry the cursor becomes null |
| Cursor.Step | prqueue.h:346-384 | reads the entry at position `k` and finds the record of position `k + 1`, or the root after the last position |
| Cursor.Advance | prqueue.h:350-384 | from the record at position `k`, the link, parent and right-subtree moves reach position `k + 1` exactly when it exists |
| Cursor.ClimbChain | prqueue.h:357-359 | climbing `parent` while the priority stays equal leads from any chain member to its tree node |
| Cursor.ClimbTree | prqueue.h:374-384 | climbing to the first ancestor of greater priority reaches the next listing position, or the root when the listing is exhausted |
| Cursor.Traverse | prqueue.h:313-385 | `begin` followed by the corrected `next` until it returns false writes the whole listing, in order, and leaves the cursor null |
| Cursor.TraverseAsWritten | prqueue.h:313-385 | `begin` followed by `next` as written until it returns false writes the whole listing, in order, and leaves the cursor on the root |
| Cursor.AfterTraverse | prqueue.h:374-384 | after that traversal one more `next` writes the root's entry again, and returns true unless the root's entry is the last listed |
| Cursor.RootPosition | prqueue.h:374-384 | the root's entry is listed right after the entries of its left subtree |
| Cursor.Exhausted | prqueue.h:340-344 | once a traversal with the corrected `next` has ended, a further call returns false and writes nothing |
| Cursor.FourthCall | prqueue.h:374-384 | on the queue built by enqueue(10,2), enqueue(20,1), enqueue(30,3), the fourth `next` after `begin` writes (10,2) again and returns true |
| Cursor.FourthCallFixed | prqueue.h:374-384 | with the corrected `next`, that fourth call returns false and writes nothing |
| HeapOps.Enqueue | prqueue.h:164-219 | the record-level enqueue holds exactly the tree that `PrQueue.Enqueue` produces; it keeps live parent links and sets the cursor only on an empty queue |
| HeapOps.EnqueueFixed | prqueue.h:164-219 | the same, with the new chain member pointing back at the chain's last member; it keeps tight parent links |
| HeapOps.Plant | prqueue.h:176-181 | on an empty queue the new record becomes the root, the only entry, and the cursor |
| HeapOps.Descend | prqueue.h:184-208 | the descent stops at the node owning `p`, or at the node whose missing child is where the new leaf goes, and inserting there is inserting into the whole tree |
| HeapOps.ChainEnd | prqueue.h:191-195 | walking `link` from a tree node ends at the chain's last member and the member before it |
| HeapOps.Attach | prqueue.h:211-218 | hanging a new leaf on the stopping node's free side yields the tree with the new priority inserted and keeps live and tight parent links |
| HeapOps.Append | prqueue.h:191-202 | appending to the chain yields the tree with the value at the end of its priority's chain; live links are kept, and tight links too when the new member points at the last member |
| HeapOps.FindMin | prqueue.h:236-243 | the walk down `left` stops at the node holding the first listed entry, with its parent |
| HeapOps.Promote | prqueue.h:250-266 | when the minimum node has a chain, the chain's first member takes its place, its right subtree and its parent (becoming the root when the minimum was the root); the records hold the tree with the minimum removed, with one entry fewer and the cursor untouched; tight links stay tight, and live links stay live when no later chain member points back at the released node |
| HeapOps.PromoteLive | prqueue.h:250-266 | when each later chain member's parent is an earlier member other than the released node, the promoted member's chain keeps live parent links |
| HeapOps.TightNoBackLink | prqueue.h:250-266 | under tight links no later member of the minimum's chain points back at the minimum, so the condition for a live promotion holds |
| HeapOps.Splice | prqueue.h:268-286 | otherwise the right subtree takes the node's place under its parent (or becomes the root, without a parent); the records hold the tree with the minimum removed, with one entry fewer and the cursor untouched; tight links stay tight and live links stay live |
| HeapOps.Dequeue | prqueue.h:230-287 | the record-level dequeue returns and leaves exactly what `PrQueue.Dequeue` does, keeps tight parent links, keeps live ones unless a later member of the minimum's chain points back at the minimum, and leaves the cursor field alone |
| HeapOps.ListAfterEnqueue | prqueue.h:164-219 | with live links, enqueue as written followed by a full traversal writes the old listing with the new entry after every entry of priority at most its own |
| HeapOps.ListAfterDequeue | prqueue.h:230-287 | with live links and no back link in the minimum's chain, dequeue followed by a full traversal writes the old listing without its first entry, and the value returned is that entry's |
| HeapOps.FourthCallFromEnqueue | prqueue.h:374-384 | on the queue the record-level enqueue builds from enqueue(10,2), enqueue(20,1), enqueue(30,3), the call after a full traversal with `next` as written writes (10,2) and returns true |
| HeapOps.ParentLag | prqueue.h:191-198 | after enqueue("a",2), enqueue("b",2), enqueue("c",2) and one dequeue, the parent of "c" is the released record, so the parent links are no longer live |
| HeapOps.ParentLagFixed | prqueue.h:191-198 | with the new member pointing at the last member, the same sequence leaves "c" pointing at "b", and the links stay tight and live |

## Left out

- Memory management is not modelled: `new`, `delete`, the destructor
  (prqueue.h:149-153) and the missing copy constructor. Records are never
  reused. A released record stays in the store, outside the shape.
- The default value `T{}` returned by `dequeue` and `peek` on an empty queue
  is a parameter `dflt`.
- `toString` produces a sequence of `(priority, value)` entries, not text.
  The stream formatting at prqueue.h:411 and 415 is left out.
- `getRoot`, tempCodeRunnerFile.h and the test driver tests.cpp are not part
  of this model. tests.cpp is read only as evidence of intent.
- PrQueue.Assign: the code does not clear this queue before copying, although
  the comment at prqueue.h:59 says it does. The model follows the code.
  Self-assignment is a flag `same`, because object identity has no
  counterpart in a value model.
- PrQueue.Equal: the comparison is structural, as the code is. tests.cpp:227-238
  expects two queues built in different orders to compare equal.
  `PrQueue.EqualIsStructural` shows they do not.
- Cursor.Next: tests.cpp:264-285 expects `next` to return true on the last
  entry. The code returns false there, and the model follows the code.
- Cursor.Next and Cursor.NextFixed require live parent links (`Live`).
  Without them the source's climb reads a released node, which has no
  meaning in this model.
- HeapOps.Dequeue keeps live parent links only when no later member of the
  minimum's chain points back at the minimum (`MinNoBackLink`). The
  as-written enqueue gives the third entry of a priority such a link, and
  promoting over it breaks liveness, as `HeapOps.ParentLag` shows. So
  HeapOps.ListAfterDequeue carries the same condition.
- PrQueue.Clear gives the release order as a sequence of entries. Releasing
  memory is not modelled.
- The cursor after `dequeue` is modelled as the source leaves it (untouched).
  It may name a released record, and no contract describes a `next` from there.
- The cursor effects of `clear` and `operator=` are not modelled, because
  `PrQueue.Queue` carries no cursor. `clear` (prqueue.h:133-140) leaves `curr`
  on a released node. `operator=` into an empty queue moves `curr` to the new
  root through its first enqueue (prqueue.h:176-181).

## Findings

| source | as written | input that shows it | evidently intended | confidence | as-written member | corrected member |
|---|---|---|---|---|---|---|
| prqueue.h:374-384 | after the last entry, the climb stops at the root and leaves `curr` there, so the next call starts over at the root | enqueue(10,2), enqueue(20,1), enqueue(30,3), begin, then four `next` calls: the fourth writes (10,2) and returns true | after the last entry `curr` becomes null, so every further call returns false | not executed | Cursor.FourthCall | Cursor.FourthCallFixed |
| prqueue.h:191-198 | a new duplicate's `parent` is the chain member before the last one, not the last one | enqueue("a",2), enqueue("b",2), enqueue("c",2), dequeue: "c"'s parent is the released node of "a", which a later `next` climbs into | the new member's parent is the chain's last member | not executed | HeapOps.ParentLag | HeapOps.ParentLagFixed |
