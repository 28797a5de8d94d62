# Verification of GraphIPC's containers, algorithms and framing

GraphIPC routes packets between processes. This project models the parts of it in which a mistake would be
hard to see: the data structures and algorithms it vendors (klib and libavl) and its own wire framing. The
models keep the form of the code. Structures that are changed in place are classes over arrays or linked nodes,
loops are loops, and the concurrent algorithms are state machines of atomic steps. Every operation is proved
against a specification on plain values, and what the code is for is proved about that specification.

| part | modules | main results |
|---|---|---|
| khash, the open-addressing hash map | PowersOfTwo, Probing, KhashFlags, KhashState, Khash | every operation agrees with a finite map, and a put takes exactly the bucket due to its key; probing ends; the in-place rehash keeps the map at every capacity |
| Boyer-Moore search | BoyerMoore | the three tables are what they should be; the first occurrence is found, or none exists |
| AVL table | AvlTree, AvlOrder, AvlInsert, AvlDelete, AvlShape, AvlSplice, AvlTable, AvlBounds, AvlProbeBounds | insertion and deletion change one item and keep exact balance factors; exactly how large a table may be before the path arrays are too short |
| AVL tree with ranks | KavlSizes, KavlSteps, Kavl | insertion, lookup and erasure count ranks, and every subtree size stays exact |
| AVL traversers | AvlOrderWalk, AvlTraverser | next and previous are the neighbours in order, after any other changes to the table |
| B-tree | BTree, BTreeSearch, BTreeHeap, BTreeInsert, BTreeRemoval, BTreeDeleted, BTreeDelete, Kbtree | insertion and deletion keep shape, sizes and order; exactly when deletion removes one key and touches no other |
| kalloc, the allocator | KallocLayout, KallocSteps, KallocHeaders, Kalloc | blocks stay disjoint, free neighbours are merged, and no unit is lost, in every state; an allocation is served by the first block that fits |
| ordered pipeline and parallel for | Pipeline, PipelineEnds, PipelineItems, ParallelFor | order, exclusion, absence of deadlock, where every item goes and exactly when the pipeline ends; every index once, and every run ends: in every interleaving |
| expressions | KexprGrammar, KexprParser, KexprCorrect, KexprEval, KexprTable, KexprErrors, KexprOperands | the order of operators is that of the table, row by row; exactly which texts are refused, with which error; the parser keeps the meaning of an expression exactly when no argument after a comma begins with a sign; exactly when code that it accepts runs out of operands |
| framing | Wire, Framing, Endpoint | packets come out as they went in, however the bytes are cut into reads, and after noise exactly when it is quiet; local input is cut without loss |
| merge sort | StableSort, MergeSort | the result is the stable sort of the input, in the caller's array |
| New Hampshire trees | Newick, NewickTrees, NewickComments, NewickLinks, NewickRoundTrip, NewickHearing, NewickExact | trees with comments parse to their tables; parents and kids agree on every text; parsing what was printed gives the same node table, exactly for trees with clean names |

Options and Orders hold a datatype and a predicate that several modules share.

## What the models say about the code

Where the code and its comments or obvious intent part, the models follow the code. These are the places.

- `kh_resize` with a request above 2^31 rounds up to 0 and then to 4 buckets (Probing.NewCapacityIs).
- `avl_delete` pushes the sentinel and every node it passes. Its arrays of 32 entries are long enough for all
  deletions exactly in tables of fewer than 5,702,886 items; for items that are there, of fewer than 9,227,464
  (AvlBounds.DeleteFitsExactly). The array of `avl_probe`, which starts anew at every unbalanced node, is long
  enough exactly below 12,752,041 items (AvlProbeBounds.ProbeFitsExactly).
- B-tree deletion, on a hit between two minimal kids, writes the key it was given into the tree and goes on to
  delete that. With a comparison that calls different keys equal, a stored key is then lost while another stays
  (BTreeDeleted.LosesOne). Deletion removes exactly one stored key and leaves the others alone on every tree
  if and only if the comparison is 0 on identical keys only (BTreeDeleted.CutsOneExactly).
- `kt_pipeline` with a single step never ends; with two or more it can end from wherever it has got to, and does
  when its first step stops handing items on (PipelineEnds.EndsExactly, PipelineEnds.RunsEnd).
- `packet_write_u32` applies htonl and then writes the highest byte first, so the order on the wire is the byte
  order of the host (Wire.WireOrderIsHostOrder). The round trip holds on a host of either order; hosts of
  different order agree exactly on numbers whose bytes read the same from both ends (Wire.HostsAgreeExactly).
- The resynchronising loop drops bytes until it sees a magic byte followed by a version byte. Noise in front of
  packets does no harm exactly when it holds no such pair (Framing.NoiseIsHarmlessExactly).
- A header that announces more than the buffer holds stops the stream (Framing.StallsExactly). One whose length is
  0xFFFFFFF6 or more passes for a packet that is complete, because its size is computed in 32 bits
  (Framing.FrontFaultsExactly); the loop comes to one exactly when Framing.FaultsExactly says.
- Behind a name, comments, blanks and stray characters are dropped without an error and the last of several distances
  counts (NewickComments.ParsesWithComments); only a bracket left open is an error (NewickComments.ErrorExactly).
- Names with delimiters, blanks or brackets, leaves that print nothing and leaf names that begin with a parenthesis
  do not survive printing and parsing, and everything else does (NewickExact.RoundTripsExactly).
- `kmalloc` computes the units of a request in 64 bits; they hold the request exactly when the sum does not wrap
  around (Kalloc.UnitsSufficeExactly). `morecore` multiplies them by the header size in 64 bits, which wraps around for
  the largest requests before that (Kalloc.CoreBytesSufficeExactly). Both are right exactly below 2^64 - 2^23 - 39
  bytes (Kalloc.RequestFitsExactly).
- The comma branch of `ke_parse_core` leaves `last_is_val` set, so a sign after a comma is read as a binary
  operator, even behind an opening parenthesis (KexprCorrect.SignAfterComma).
- `ke_parse_core` counts values only at its end, so it accepts texts such as `*/1(2)(3)`, whose code takes operands
  from an empty stack (KexprOperands.RunsDryAtOnce), and `ke_eval` does not test for that. No operand is missing
  exactly when that count, taken along the code, never falls below 1, or below 0 behind a function without an
  implementation (KexprOperands.RunsDryExactly). On texts in which operands and operators alternate, as in that of
  every tree that the parser reads right, it never does (KexprOperands.AlternatingHasOperands,
  KexprOperands.RenderedAlternates).

## Conventions

- The left and right cases that `avl.c` writes out twice are one piece of code with a direction.
- A method that C implements as a macro over types is generic over types; comparison and hash functions are
  parameters. An order is a function with the laws of Orders.Order, which `compareAddress32` obeys on address
  sets that span less than 2^31.
- The AVL table's root field, which `avl.c` casts to a node, is a sentinel node whose left link is the root.
- The trees of `avl.c` and `kavl.h` share the methods for links, balance factors and stacks. The size fields of
  kavl's nodes are a map from nodes to numbers beside them, and its null parent of the root is the sentinel.
- The B-tree's fixed node arrays are sequences of the length in use, replaced as the memmove calls replace them.
- Block headers of the allocator are maps from addresses, in units of one header, to field values.
- `0.77 * n + 0.5` is computed as `(77 * n + 50) / 100`, which is the same number for every power of two used.

## Model

Source paths are relative to the repository.

| member | source | states |
|---|---|---|
| Probing.ProbesCover | lib/klib/khash.h:236-240 | for every hash value and every power-of-two capacity n, every bucket is among the first n buckets of the probe sequence |
| Probing.NoEarlyReturn | lib/klib/khash.h:239-240 | the probe sequence is not back at its home bucket before n increments, so `i == last` means every bucket was seen |
| Probing.ProbeIs | lib/klib/khash.h:239-240 | after s increments the probe stands s * (s + 1) / 2 buckets behind the home bucket, round the table |
| PowersOfTwo.TrianglesDiffer | lib/klib/khash.h:239 | two different triangular numbers below the n-th leave different remainders modulo a power of two n, from any start |
| Probing.LoadBoundLeavesRoom | lib/klib/khash.h:303 | the load bound is 0.77 of the capacity, rounded to the nearest integer; from 4 buckets on it is positive, below the capacity, and at least half of it |
| Probing.NewCapacityIs | lib/klib/khash.h:249-250 | the capacity a request leads to is the least power of two of at least 4 that is no less than the request, up to 2^31, and 4 above |
| Probing.PutCapacities | lib/klib/khash.h:310-317 | the two automatic requests n - 1 and n + 1 give n and 2n buckets |
| KhashFlags.TestsReadStatus | lib/klib/khash.h:165-167 | the three flag tests read the decoded status of one bucket |
| KhashFlags.SetDelStore | lib/klib/khash.h:171 | on a live bucket the bit operation makes that bucket deleted and leaves all others as they are |
| KhashFlags.ClearEmptyStore | lib/klib/khash.h:169 | on an empty bucket it makes that bucket live and leaves all others as they are |
| KhashFlags.ClearBothStore | lib/klib/khash.h:170 | it makes the bucket live whatever it was and leaves all others as they are |
| KhashFlags.FreshFlags | lib/klib/khash.h:256 | words of 0xaa bytes describe an all-empty table |
| KhashState.PathMeetsEmpty | lib/klib/khash.h:237-240 | with fewer used buckets than buckets every probe sequence meets an empty one within n steps |
| KhashState.NoReturn | lib/klib/khash.h:240 | a walk of fewer than n steps is not back at its home bucket |
| KhashState.DeleteConsistent | lib/klib/khash.h:349-353 | marking a live bucket deleted keeps the table invariant: counters, one bucket a key, every key reachable |
| KhashState.InsertConsistent | lib/klib/khash.h:336-346 | storing a missing key in a reachable bucket that is not live keeps it |
| KhashState.SlotIs | lib/klib/khash.h:327-334 | the bucket due to a missing key, the last deleted one before the first empty one of its probe path or else that one, is reachable and not live, and deleted if and only if a deleted bucket lies on the path before the first empty one |
| KhashState.BeginRehash | lib/klib/khash.h:252-268 | a table and fresh flags start a rehash: all its entries wait in the old table |
| KhashState.KickOut | lib/klib/khash.h:283-286 | picking up the waiting entry of a bucket and putting the held one down there keeps waiting, placed and held entries a partition of the content, with placed keys reachable |
| KhashState.RoomWhileHeld | lib/klib/khash.h:281 | while an entry is held the new table has an empty bucket, so the inner probing ends |
| KhashState.EndRehash | lib/klib/khash.h:295-304 | with nothing waiting or held the new flags are a table of the same content without deleted buckets |
| Khash.Table.constructor | lib/klib/khash.h:212-214 | a table without buckets is valid and stands for the empty map |
| Khash.Table.Get | lib/klib/khash.h:230-243 | the bucket of a stored key, and the number of buckets exactly for a key that is not stored |
| Khash.Table.Delete | lib/klib/khash.h:349-354 | removes exactly the key of a live bucket, and does nothing on other arguments |
| Khash.Table.SetValue | lib/klib/khash.h:521 | changes the value of the key in a live bucket and of no other |
| Khash.Table.FindSlot | lib/klib/khash.h:319-335 | the bucket of the key if it is stored; otherwise the last deleted bucket before the first empty one of its probe path, and that one if there is none |
| Khash.Table.Occupy | lib/klib/khash.h:336-346 | stores the key in that bucket; the return code says present, new or reused exactly as the bucket was live, empty or deleted |
| Khash.Table.Place | lib/klib/khash.h:319-347 | without a resize: the bucket is the one due to the key, the code is that for a reused bucket if and only if a deleted one lies on the path, and the count of used buckets grows exactly with a new one |
| Khash.Table.MoveOne | lib/klib/khash.h:270-293 | one entry and all those it kicks out find their places; the content is partitioned before and after |
| Khash.Table.MoveAll | lib/klib/khash.h:269-294 | the sweep ends with every entry placed in the new table, whether it grows, shrinks or keeps its size |
| Khash.Table.Resize | lib/klib/khash.h:244-306 | keeps the finite map; the capacity is the rounded request if the entries fit below its load bound, and otherwise nothing changes |
| Khash.Table.MakeRoom | lib/klib/khash.h:310-317 | the automatic resize keeps the map and leaves no deleted bucket and a free one below the bound; the capacity stays if more than half of it is deleted or unused, and doubles otherwise |
| Khash.Table.Put | lib/klib/khash.h:307-348 | the map gains exactly the key if it was missing and is unchanged otherwise; without a resize the bucket, the code and the count are those of Place; after one no bucket is reused, and the capacity is that of MakeRoom |
| Khash.Table.Clear | lib/klib/khash.h:223-229 | the map is empty afterwards, the capacity as before |
| BoyerMoore.FillBadChar | lib/klib/kstring.c:141-144 | for every byte the distance of its last occurrence before the end, or the pattern length |
| BoyerMoore.Extend | lib/klib/kstring.c:156 | the inner loop reaches the true length of the longest common suffix at f |
| BoyerMoore.SuffixStep | lib/klib/kstring.c:150-159 | one round gives the true length at i, by copying or by comparing, and a window for the next round |
| BoyerMoore.Suffixes | lib/klib/kstring.c:145-160 | every entry is the length of the longest common suffix of the pattern and its prefix ending there |
| BoyerMoore.FillBorders | lib/klib/kstring.c:162-168 | the first pass gives every entry its least shift onto a border of the pattern |
| BoyerMoore.SecondPassEnd | lib/klib/kstring.c:169-170 | after the second pass an entry is the least good shift |
| BoyerMoore.FillGoodSuffix | lib/klib/kstring.c:161-171 | every entry is the least shift that lines up the matched suffix with an occurrence preceded by another byte, or with a border |
| BoyerMoore.Prepare | lib/klib/kstring.c:136-174 | the table is the good-suffix table followed by the bad-character table |
| BoyerMoore.OccurrenceIsGoodShift | lib/klib/kstring.c:189 | an occurrence s further on makes s a good shift, so none is skipped by the least one |
| BoyerMoore.NoOccurrenceByBadChar | lib/klib/kstring.c:188 | no shift below the bad-character distance leads to an occurrence |
| BoyerMoore.SkipIsSafe | lib/klib/kstring.c:188-190 | the larger of the two shifts advances and passes over no occurrence |
| BoyerMoore.LastMismatch | lib/klib/kstring.c:186 | the last mismatching position of a window, or none exactly at an occurrence |
| BoyerMoore.Find | lib/klib/kstring.c:176-195 | the least offset at which the pattern occurs, and nothing exactly when it occurs nowhere; tables from an earlier call may be passed in |
| Pipeline.Shared.TestSection | lib/klib/kthread.c:201-213 | the scan of the worker table under the mutex is the transition Test: start, or wait |
| Pipeline.Shared.ReturnSection | lib/klib/kthread.c:219-223 | the second critical section is the transition Return: next step or exit, new index, broadcast |
| Pipeline.NotBlockedByLater | lib/klib/kthread.c:205-210 | a worker that passes the test has the smallest index of all at its step or before |
| Pipeline.NextOrdered | lib/klib/kthread.c:195-226 | every atomic section keeps the invariant of order and exclusion |
| Pipeline.PipelineOrder | lib/klib/kthread.c:195-256 | in every interleaving items enter each step in increasing order, step 0 takes 0, 1, 2, ..., each further step takes what left the one before, in that order, and no two workers are in one step |
| Pipeline.NoDeadlock | lib/klib/kthread.c:202-212 | in every reachable state the unfinished worker with the smallest index is not blocked: it is in its step or can enter it |
| Pipeline.FirstExists | lib/klib/kthread.c:199-212 | while some worker is unfinished there is a first one |
| Pipeline.SingleStepNeverEnds | lib/klib/kthread.c:220 | with one step no worker exits in any run |
| PipelineEnds.RunsEnd | lib/klib/kthread.c:199-224 | with two steps or more, in every interleaving, the number of critical sections is bounded by the workers, the items that step 0 has handed on and the wakeups without cause |
| PipelineEnds.StuckIsDone | lib/klib/kthread.c:199-225 | a reached state in which nothing is due but wakeups without cause is one in which all workers have exited, and the other way round |
| PipelineEnds.EndsExactly | lib/klib/kthread.c:195-256 | some run ends, some worker exits in some run, and every run can be continued to its end, each if and only if there are two steps or more |
| PipelineItems.ReturnMoves | lib/klib/kthread.c:216-223 | in every reached state, by values: a return with data before the last step takes the same item to the next step, one without ends the worker, one from the last step starts the next new item; other workers are only woken |
| PipelineItems.TestStarts | lib/klib/kthread.c:201-213 | in every reached state a test starts the worker if and only if every worker with a smaller index has got past its step, and otherwise puts it to sleep |
| PipelineItems.EveryItemAccounted | lib/klib/kthread.c:195-226 | read off the sections of any run: a step before the last has handed on exactly the items that returned data there, in that order; the items that entered a step are those that returned there and the one inside |
| PipelineItems.HandedEnters | lib/klib/kthread.c:195-256 | when all workers have exited, exactly the items that one step handed on have entered the next, in that order |
| PipelineItems.ItemsComeThrough | lib/klib/kthread.c:195-256 | so if only the first and the last step ever return NULL, every item that the first step handed on has gone through all further steps |
| ParallelFor.FetchClaims | lib/klib/kthread.c:30-40 | a fetch-and-add claims exactly the index it returns, which nobody had claimed |
| ParallelFor.NextInv | lib/klib/kthread.c:24-46 | every atomic step of every thread keeps the invariant |
| ParallelFor.CallsExactlyOnce | lib/klib/kthread.c:24-65 | in every interleaving each index below n is passed to the function at most once and nothing else is; when all threads have exited each has been passed exactly once, whatever the racy scan saw |
| ParallelFor.CounterFits | lib/klib/kthread.c:27-30 | no counter reaches LONG_MAX, so the scan always has a victim |
| ParallelFor.ThreadsCanMove | lib/klib/kthread.c:34-46 | a thread that has not exited can take its next step in every reachable state |
| ParallelFor.StealsLeast | lib/klib/kthread.c:24-32 | in every reachable state a scan that the other threads leave alone ends at the first of the smallest counters |
| ParallelFor.RunsEnd | lib/klib/kthread.c:34-46 | every interleaving ends: a run is no longer than a budget that each step spends from |
| AvlTree.RebalanceIsAvl | lib/avl.c:311-387 | the rotation that the balance factor of the heavy child selects gives exact factors and the same order; the height drops by one unless that child was balanced |
| AvlTree.GrowZeros | lib/avl.c:129-133 | through nodes of balance 0 an insertion raises every height and the adjusted factors are exact |
| AvlOrder.LeadsStep | lib/avl.c:106-115 | a comparison leads to the side on which the item belongs |
| AvlOrder.InsertSorted | lib/avl.c:117 | where a search ends in nothing, no equal item exists and inserting there keeps the order |
| AvlInsert.AdjustAll | lib/avl.c:129-133 | the loop from y down to the new node adds one step to every factor on the way and touches no other field |
| AvlInsert.GrownIsAvl | lib/avl.c:135-190 | rotating only at the last unbalanced node is enough: the subtree there is AVL, or heavy by two and then rotated to its old height |
| AvlTable.AvlTable.constructor | lib/avl.c:37-58 | an empty table is valid |
| AvlTable.AvlTable.Find | lib/avl.c:63-83 | a node with an equal item, and nothing exactly when there is none |
| AvlTable.AvlTable.Descend | lib/avl.c:103-115 | the search of an insertion: its end, the last unbalanced node on the way, that node's parent and the steps from it |
| AvlTable.AvlTable.LinkNew | lib/avl.c:117-125 | the new node is at the end of the search path and everything else where it was |
| AvlTable.RotateUnder | lib/avl.c:135-191 | the rotation at y linked under z is the rebalanced tree, in place |
| AvlTable.AvlTable.SettleAfter | lib/avl.c:126-193 | what is left after linking: adjust, rotate if due, relink; true exactly if a rotation was made |
| AvlTable.InsertedIsAvl | lib/avl.c:126-193 | the tree after an insertion has exact balance factors in -1, 0, +1 everywhere |
| AvlTable.InsertedInOrder | lib/avl.c:126-193 | its items are the old ones with the new one at the place of the search |
| AvlTable.InsertedExtends | lib/avl.c:189-190 | without a rotation every node keeps its place, although the generation stays |
| AvlTable.ProbeDone | lib/avl.c:106-193 | what an insertion leaves: AVL, sorted, the new item at its place, one more node |
| AvlTable.AvlTable.Probe | lib/avl.c:89-195 | inserts exactly one item, or returns the node of an equal one and changes nothing |
| AvlDelete.SpliceShrinks | lib/avl.c:257-295 | unlinking a node in any of the three ways removes its item from the order and leaves one subtree, where the stack ends, a level lower than the factors say |
| AvlDelete.DropMinShrunk | lib/avl.c:273-289 | taking the successor out of the right subtree shrinks exactly the subtree it leaves |
| AvlDelete.StepRepairs | lib/avl.c:300-388 | one pass of the loop either restores the tree, exactly in the cases of the early breaks, or moves the shrunken subtree one node up; order and nodes stay |
| AvlSplice.FindSuccessor | lib/avl.c:273-284 | the walk to the successor with its stack entries |
| AvlSplice.LiftSuccessor | lib/avl.c:286-289 | the successor in the place of the removed node |
| AvlSplice.TakeOut | lib/avl.c:257-295 | all three ways of unlinking give the spliced subtree in place and the stack to the subtree that shrank |
| AvlSplice.Unlink | lib/avl.c:257-295 | the same seen from the sentinel |
| AvlSplice.RepairTop | lib/avl.c:302-387 | one pass in place, with its result linked where the node was |
| AvlSplice.RepairAll | lib/avl.c:299-388 | the loop leaves exact balance factors, the same items and the same nodes |
| AvlTable.AvlTable.Seek | lib/avl.c:241-254 | the search of a deletion and its stack |
| AvlTable.DeleteDone | lib/avl.c:257-295 | what unlinking leaves: the items without the one removed, in order |
| AvlTable.AvlTable.Delete | lib/avl.c:228-393 | removes exactly the matching item and returns it, or changes nothing when there is none; the sequence is otherwise unchanged |
| AvlTraverser.ExtendsKeepsPath | lib/avl.c:397-421 | where every node keeps its place, a path of ancestors stays one |
| AvlTraverser.ChangesKeepTrust | lib/avl.c:588-589 | after any number of insertions and deletions of other items, a stack whose generation is current is the ancestor path of its node |
| AvlTraverser.AvlTraverser.Refresh | lib/avl.c:397-421 | rebuilds the stack as the ancestor path of the current node |
| AvlTraverser.AvlTraverser.Select | lib/avl.c:437-486 | the first or the last item, or nothing in an empty table |
| AvlTraverser.AvlTraverser.Climb | lib/avl.c:611-624 | popping ends at the neighbour above, or with nothing when there is none |
| AvlTraverser.AvlTraverser.GoDown | lib/avl.c:596-608 | one step and then all the way in the other direction ends at the neighbour below |
| AvlTraverser.AvlTraverser.StepFresh | lib/avl.c:591-628 | with a current stack, the neighbour in order, or nothing past the end |
| AvlTraverser.AvlTraverser.Step | lib/avl.c:581-682 | the neighbour in order in either direction, also when the table has changed since, if the current item is still in it |
| AvlOrderWalk.PlaceOf | lib/avl.c:581-682 | the items left and right of a path add up, and the node at the path is the item between them |
| AvlOrderWalk.StepDown | lib/avl.c:596-608 | the node found below has exactly one item fewer beyond it |
| AvlOrderWalk.StepUp | lib/avl.c:611-624 | so has the node found above |
| AvlOrderWalk.PathIsSearch | lib/avl.c:412-419 | comparing with the current item follows the path to it |
| AvlBounds.FewestItems | lib/avl.h:53-55 | an AVL tree of height h has at least Fibonacci many items |
| AvlBounds.FewItemsAreShallow | lib/avl.h:53-55 | fewer than 9,227,464 items mean height at most 32, fewer than 5,702,886 at most 31 |
| AvlBounds.FewItemsFit | lib/avl.h:53-55 | below those numbers deletion stays inside its arrays, for any item or for an item that is there |
| AvlBounds.BoundsAreTight | lib/avl.h:53-55 | with exactly that many items there is a table and a missing item that need 33 entries, and a table of height 33 |
| AvlBounds.DeleteFitsExactly | lib/avl.c:232-254 | for every n: deletion stays inside its arrays in all tables of n items if and only if n < 5,702,886, and for items that are there if and only if n < 9,227,464 |
| AvlProbeBounds.ProbeFits | lib/avl.c:98-115 | below 12,752,041 items the cached comparison results fit their array |
| AvlProbeBounds.ProbeFitsExactly | lib/avl.c:98-115 | for every n: insertion stays inside its array in all tables of n items if and only if n < 12,752,041 |
| AvlBounds.HeightFitsExactly | lib/avl.c:410-419 | for every n: all tables of n items are at most h high if and only if n is below the fewest items for height h + 1, which is 14,930,351 for the 33 levels a traverser can hold |
| KavlSizes.RankMissing | lib/klib/kavl.h:85-94 | where a search ends in nothing, the number of items not greater is the number of items left of its end |
| KavlSizes.RankFound | lib/klib/kavl.h:85-94 | at an equal item it is the items left of it and the one itself |
| KavlSizes.SizedSingle | lib/klib/kavl.h:99-108 | the sizes that a single rotation stores are exact in the rotated tree |
| KavlSizes.SizedDouble | lib/klib/kavl.h:110-127 | so are those of a double rotation |
| KavlSizes.SizedPut | lib/klib/kavl.h:157-157 | when a subtree is replaced by one of another size, shifting the sizes on the way to it makes all sizes exact again |
| KavlSizes.SizedSpliced | lib/klib/kavl.h:202-232 | one less on the way to the successor, and the size of the erased node less one for the successor itself, are exact after unlinking |
| KavlSteps.RotateOnce | lib/klib/kavl.h:99-108 | the size stores of the single rotation, in place |
| KavlSteps.RotateTwice | lib/klib/kavl.h:110-127 | the size stores of the double rotation, in place |
| KavlSteps.SettleSizes | lib/klib/kavl.h:158-171 | adjusting and rotating after an insertion leaves exact sizes in the subtree that is rotated and touches no others |
| KavlSteps.DepthFits | lib/klib/kavl.h:67-67 | while sizes fit 32 bits no path is as long as the path arrays |
| Kavl.KavlTree.constructor | lib/klib/kavl.h:130-146 | an empty tree is valid |
| Kavl.KavlTree.Find | lib/klib/kavl.h:81-95 | the node of an equal item, or nothing exactly when there is none; the count is the rank, the number of items not greater |
| Kavl.KavlTree.Descend | lib/klib/kavl.h:137-152 | the search of an insertion, with the path and the count |
| Kavl.KavlTree.SettleNode | lib/klib/kavl.h:157-171 | after linking and counting: balance factors, rotation and sizes |
| Kavl.KavlTree.Insert | lib/klib/kavl.h:130-173 | inserts exactly the given node and keeps balance factors and sizes exact, or returns the node of an equal item and changes nothing; the count is the rank before |
| Kavl.KavlTree.Seek | lib/klib/kavl.h:183-195 | the search of an erasure, its stack, and the rank of what it finds |
| Kavl.KavlTree.UnlinkSized | lib/klib/kavl.h:202-232 | unlinking with its size stores leaves exact sizes |
| Kavl.KavlTree.RepairAllSized | lib/klib/kavl.h:233-253 | the repair loop keeps them and restores the balance factors |
| Kavl.KavlTree.Erase | lib/klib/kavl.h:176-256 | removes exactly the matching node and returns it with its rank, or changes nothing and counts 0 |
| Kavl.KavlTree.EraseFirst | lib/klib/kavl.h:196-256 | removes the first node, with rank 1 |
| BTreeSearch.FindInNode | lib/klib/kbtree.h:103-117 | the binary search gives the place that a linear look at the keys gives |
| BTreeSearch.LocateIs | lib/klib/kbtree.h:103-117 | that place: everything up to it less, except a hit itself, everything after it not less |
| BTreeSearch.SideKeys | lib/klib/kbtree.h:126-128 | the kid the search goes on in holds the place of the key among all keys |
| Kbtree.Kbtree.constructor | lib/klib/kbtree.h:61-75 | an empty tree is valid |
| Kbtree.Kbtree.Get | lib/klib/kbtree.h:119-131 | a key that compares equal, and nothing exactly when there is none |
| Kbtree.Kbtree.Interval | lib/klib/kbtree.h:137-154 | the equal key twice, or the greatest key less and the least key greater |
| BTreeInsert.Halve | lib/klib/kbtree.h:165-171 | the upper half of a full node in a new node, in place |
| BTreeInsert.Split | lib/klib/kbtree.h:162-177 | a full kid becomes two kids with its middle key between them in the parent |
| BTreeInsert.SplitIs | lib/klib/kbtree.h:162-177 | a split keeps the sequence of keys, the sizes and the depth of the leaves |
| BTreeInsert.SideAfterSplit | lib/klib/kbtree.h:191-194 | after a split the comparison with the middle key picks the kid in which the key belongs |
| BTreeInsert.PutAux | lib/klib/kbtree.h:178-198 | insertion below a node that is not full adds exactly the key at its place and keeps sizes and depth |
| BTreeInsert.InsertedSorted | lib/klib/kbtree.h:178-198 | that place keeps the keys sorted |
| Kbtree.Kbtree.GrowRoot | lib/klib/kbtree.h:203-211 | a full root is split under a new root; the keys stay |
| Kbtree.Kbtree.Put | lib/klib/kbtree.h:199-213 | the key sequence gains exactly the key, at a place that keeps it sorted; the tree stays a B-tree |
| BTreeRemoval.LendRight | lib/klib/kbtree.h:264-270 | a key lent by the left sibling keeps the sequence of keys |
| BTreeRemoval.LendLeft | lib/klib/kbtree.h:271-277 | so does a key lent by the right sibling |
| BTreeRemoval.RefillSizes | lib/klib/kbtree.h:263-297 | after a refill the kid to go on in has at least t keys and every node is in range |
| BTreeRemoval.RefillCounts | lib/klib/kbtree.h:263-297 | the number of keys of every kid after a refill: the left sibling lends one if it can, else the right one; else the kid is joined with the left sibling, or with the right one at the left end |
| BTreeRemoval.RefillFlat | lib/klib/kbtree.h:263-297 | no refill changes the sequence of keys |
| BTreeRemoval.MergedOrder | lib/klib/kbtree.h:249-261 | a hit between minimal kids: the merged kid is sorted with the probe key in place of the stored one |
| BTreeDelete.TakeFromLeft | lib/klib/kbtree.h:264-270 | the borrowing from the left, in place |
| BTreeDelete.TakeFromRight | lib/klib/kbtree.h:271-277 | the borrowing from the right, in place |
| BTreeDelete.Merge | lib/klib/kbtree.h:278-297 | the merging of two kids, in place |
| BTreeDelete.RefillKid | lib/klib/kbtree.h:263-297 | the choice between the four cases, in place, and the node to go on in |
| BTreeDelete.DelHit | lib/klib/kbtree.h:238-261 | the three cases of a hit in an internal node, in place |
| BTreeDelete.DelAux | lib/klib/kbtree.h:221-300 | deletion below a node leaves the tree and returns the key that the function Del gives |
| BTreeDelete.DelApart | lib/klib/kbtree.h:221-300 | no node comes to be in two places |
| BTreeDeleted.DelSizes | lib/klib/kbtree.h:221-300 | deletion keeps all leaves at one depth and every node below the top between t - 1 and 2t - 1 keys |
| BTreeDeleted.DelEnd | lib/klib/kbtree.h:227-229 | the two modes without a key take out the last or the first key and nothing else |
| BTreeDeleted.DelKey | lib/klib/kbtree.h:221-300 | with a key exactly one key that compares equal comes out, after the probe key may have overwritten equal keys |
| BTreeDeleted.CutsOneExactly | lib/klib/kbtree.h:249-261 | deletion takes out one stored key and leaves all others as they were, on every tree, if and only if only identical keys compare equal |
| BTreeDeleted.LosesOne | lib/klib/kbtree.h:249-261 | a smallest tree on which it does not, for any two different keys that compare equal |
| Kbtree.Kbtree.Collapse | lib/klib/kbtree.h:308-312 | a root without keys gives way to its only kid |
| Kbtree.Kbtree.Del | lib/klib/kbtree.h:301-314 | removes exactly one key equal to the given one, which must be there, and returns it; the tree stays a B-tree |
| Kbtree.CutSorted | lib/klib/kbtree.h:301-314 | the keys left are sorted and one fewer |
| KallocLayout.ReleasedTotal | lib/klib/kalloc.c:104-117 | releasing a block adds exactly its units to the free ones, merged or not |
| KallocLayout.ReleasedApart | lib/klib/kalloc.c:102-117 | the free blocks stay in address order, and no two touch |
| KallocLayout.ReleasedCovers | lib/klib/kalloc.c:104-117 | every unit that was free is still free, and so are those of the block |
| KallocSteps.LayoutReleased | lib/klib/kalloc.c:72-118 | releasing keeps the layout: free and allocated blocks disjoint, inside the cores, and free + allocated + one header a core = capacity |
| KallocSteps.LayoutExtended | lib/klib/kalloc.c:61-67 | so does adding a core |
| KallocSteps.LayoutTaken | lib/klib/kalloc.c:133-139 | so does handing out a block or the end of one |
| KallocSteps.TakenTotal | lib/klib/kalloc.c:133-139 | and takes exactly the requested units from the free ones |
| KallocHeaders.StopsBehind | lib/klib/kalloc.c:102-103 | the loop of the position search stops at exactly one block of the circle: the one behind which the released block belongs |
| KallocHeaders.LinksAfter | lib/klib/kalloc.c:104-117 | the pointer stores leave exactly the circle of the new free blocks |
| KallocHeaders.SizesAfter | lib/klib/kalloc.c:104-117 | the size stores leave their sizes |
| KallocHeaders.ReleaseHeaders | lib/klib/kalloc.c:104-117 | all headers after a release are those of the new layout |
| KallocHeaders.CoreHeaders | lib/klib/kalloc.c:65-67 | all headers after a core is chained in |
| Kalloc.UnitsSufficeExactly | lib/klib/kalloc.c:128-128 | the units computed for a request hold its bytes and the size field if and only if the 64-bit sum does not wrap around; all but one of them are as few as can |
| Kalloc.CoreUnitsLeast | lib/klib/kalloc.c:61 | a core is the least multiple of 0x80000 units with room for the request and a header |
| Kalloc.CoreBytesSufficeExactly | lib/klib/kalloc.c:61-63 | the bytes asked of malloc for a new core are those of its units, unless the 64-bit product wraps around, which it does exactly for the requests given, to 0 or to the bytes of a smallest core |
| Kalloc.RequestFitsExactly | lib/klib/kalloc.c:61-128 | both are right, so that the request has room in a block or in a new core, exactly for requests below 2^64 - 2^23 - 39 bytes |
| Kalloc.Kmem.constructor | lib/klib/kalloc.c:39-42 | a fresh allocator is valid and owns nothing |
| Kalloc.Kmem.FindPlace | lib/klib/kalloc.c:102-103 | the position search ends, behind the place of the block |
| Kalloc.Kmem.LinkIn | lib/klib/kalloc.c:104-117 | the stores of a release, and no panic |
| Kalloc.Kmem.Free | lib/klib/kalloc.c:72-118 | an allocated block becomes free, merged with the blocks it touches, and no panic is reached |
| Kalloc.Kmem.Take | lib/klib/kalloc.c:133-141 | hands out the whole block or its end, relinks the circle and lets the list start at the block before |
| Kalloc.Kmem.MoreCore | lib/klib/kalloc.c:57-70 | a new core of that least multiple is one more free block, merged with those it touches, to which the list head then points; every core is a multiple of 0x80000 units |
| Kalloc.Kmem.Search | lib/klib/kalloc.c:132-146 | the end of the first block of the circle that is large enough, from behind the list head; a core is fetched only when every free block is too small, and once |
| Kalloc.Kmem.Malloc | lib/klib/kalloc.c:120-147 | exactly one new allocated block of the rounded size, disjoint from all others: the end of the first free block that is large enough, or of the new core and what it touches if none is; nothing for 0 bytes |
| Kalloc.Kmem.Stat | lib/klib/kalloc.c:179-198 | the sums are those of the blocks and cores, with all free blocks but the base block counted; capacity and largest are multiples of 2^23 bytes, largest is that of the largest core, no panic is reached, and available + allocated + headers = capacity |
| KexprGrammar.ParenthesiseKeeps | lib/klib/kexpr.c:64-78 | every tree has a form with the parentheses that precedence and associativity call for, of the same postfix code |
| KexprTable.ParenthesesByTable | lib/klib/kexpr.c:64-78 | which of two binary operators gets parentheses, for every pair of the operators of the table, listed row by row |
| KexprParser.ParseCore | lib/klib/kexpr.c:254-352 | the loop on any token list gives what the function Parse gives, errors included |
| KexprParser.CountValues | lib/klib/kexpr.c:336-342 | the final count of values |
| KexprCorrect.ParseExpr | lib/klib/kexpr.c:269-326 | reading the text of an expression appends its postfix code to the output, from any state it fits into |
| KexprCorrect.PostfixBalance | lib/klib/kexpr.c:336-342 | the postfix code of an expression passes the final count |
| KexprCorrect.ParseRendered | lib/klib/kexpr.c:254-352 | the text of an expression parses to its postfix code |
| KexprTable.PairsByTable | lib/klib/kexpr.c:64-326 | for every pair of binary operators between three values, against the rows of the table listed one by one: the operator of the earlier row comes first in the code; of two in one row the left one, or the right one for powers |
| KexprTable.UnaryByTable | lib/klib/kexpr.c:64-326 | a unary operator comes before a binary one on either side of it, and the inner of two first |
| KexprErrors.RefusesExactly | lib/klib/kexpr.c:269-343 | on every list of tokens: the first right parenthesis too many or comma outside of a call is refused with its error, otherwise a parenthesis left open is, otherwise the text is accepted if and only if it has one value more than commas and operators with two operands |
| KexprErrors.FaultsAre | lib/klib/kexpr.c:270-294 | what the brackets of a text are, in numbers: the open ones are the left ones less the right ones, and a fault is a right one behind equally many left ones, or a comma |
| KexprCorrect.RunSigns | lib/klib/kexpr.c:295-326 | the parser neither drops nor makes up signs |
| KexprCorrect.ParsesExactly | lib/klib/kexpr.c:254-352 | a rendered expression parses to its postfix code if and only if no argument after a comma begins with a sign |
| KexprCorrect.TreesParse | lib/klib/kexpr.c:254-352 | so every expression tree has a text that parses back to it, under the same condition |
| KexprCorrect.SignAfterComma | lib/klib/kexpr.c:289-294 | an expression that shows it failing, with the sign behind a parenthesis |
| KexprEval.PostfixPushesValue | lib/klib/kexpr.c:377-394 | running the code of an expression pushes exactly its value, under any meaning of operators and functions |
| KexprEval.Apply | lib/klib/kexpr.c:379-394 | one element of the code on the array stack, when the values it takes are there |
| KexprEval.Eval | lib/klib/kexpr.c:366-399 | on any code: the value at the bottom of the array stack, which stays in bounds, and nothing exactly when operands run out or no value is left |
| KexprEval.ParsedEvaluates | lib/klib/kexpr.c:254-399 | what the parser makes of a text evaluates to the value of the expression |
| KexprTable.PairsEvaluate | lib/klib/kexpr.c:64-399 | the value of a text with two binary operators is that of the operators applied in the order of the table |
| KexprTable.CallsEvaluate | lib/klib/kexpr.c:270-395 | calls of one, two and three arguments: a function with an implementation is applied to its arguments in their order, and otherwise the first argument is the value |
| KexprOperands.ExecDepth | lib/klib/kexpr.c:376-395 | code runs without taking a missing operand if and only if the count of values, taken along it, never falls too low, and leaves as many values as counted |
| KexprOperands.RunSound | lib/klib/kexpr.c:269-343 | code that the parser accepts has functions of one argument or more, and, from an alternating text, a value behind every element |
| KexprOperands.RunsDryExactly | lib/klib/kexpr.c:254-399 | on every accepted text, under every meaning: no operand is missing if and only if the parser's final count, taken along the code, never falls below 1, or below 0 behind a function without an implementation; then one value is left |
| KexprOperands.AlternatingHasOperands | lib/klib/kexpr.c:254-399 | no operand is missing on an accepted text in which operands and binary operators alternate |
| KexprOperands.RenderedAlternates | lib/klib/kexpr.c:289-294 | the text of an expression alternates, as the parser reads signs, if and only if no argument after a comma begins with a sign |
| KexprOperands.RunsDryAtOnce | lib/klib/kexpr.c:336-394 | an accepted text whose code takes two operands from an empty stack |
| Wire.WriteU8 | lib/packet.c:9-13 | stores one byte and moves on |
| Wire.WriteU32 | lib/packet.c:23-32 | stores the four bytes and touches no other |
| Wire.ReadU32 | lib/packet.c:58-73 | reads them back |
| Wire.U32RoundTrip | lib/packet.c:23-73 | reading undoes writing on hosts of either byte order |
| Wire.U32RoundTripBytes | lib/packet.c:23-73 | writing undoes reading |
| Wire.WireOrderIsHostOrder | lib/packet.c:23-32 | which bytes go out on which host |
| Wire.HostsAgreeExactly | lib/packet.c:23-73 | a number written on one host and read on another comes back if and only if the hosts have one byte order or the bytes of the number read the same from both ends |
| Wire.Shift | lib/packet.c:108-114 | drops the first bytes in place |
| Wire.HeaderOfEncoded | lib/GraphNetwork.c:128-156 | the header, the payload and what follows can be read off an encoded packet |
| Wire.EncodedBytes | lib/GraphNetwork.c:138-184 | every byte of a packet, from hosts of either byte order: 0x55, 2, the kind, four bytes of source, four of length, the payload; data packets are of kind 0x10, and the source of commands is all ones |
| Wire.FrontBytes | lib/GraphNetwork.c:205-255 | which of the bytes in front are read as which number, and what the size in front is computed from |
| Wire.ReadHeader | lib/GraphNetwork.c:243-255 | reads the five fields at their places |
| Endpoint.Link.Build | lib/GraphNetwork.c:138-151 | the buffer holds exactly the encoded packet |
| Endpoint.Link.EmitPacket | lib/GraphNetwork.c:113-126 | what the descriptor takes goes out, all or part or nothing, and the result of the write is added to the 64-bit counter |
| Endpoint.Link.EmitData | lib/GraphNetwork.c:128-156 | one packet with the payload is written, as far as the descriptor takes it, and nothing for an empty payload |
| Endpoint.Link.EmitCommand | lib/GraphNetwork.c:162-184 | one packet with all ones as source is written, as far as the descriptor takes it, also for an empty payload |
| Endpoint.Buffer.Ready | lib/GraphNetwork.c:205-241 | size of the packet in front, more needed, or one of two faults |
| Framing.FrontFaultsExactly | lib/GraphNetwork.c:205-241 | the front counts as a whole packet of another size than the one its header announces if and only if it is a header of a length from 0xFFFFFFF6 up |
| Framing.DrainEncoded | GraphWrap.c:473-499 | the loop hands on exactly the packets encoded, in order, and leaves nothing |
| Framing.DrainAfterGarbage | GraphWrap.c:475-481 | so it does after noise in which no magic byte is followed by a version byte |
| Framing.QuietExactly | GraphWrap.c:473-499 | noise in front of a packet does no harm if and only if no magic byte in it is followed by a version byte, for every packet |
| Framing.NoiseIsHarmlessExactly | GraphWrap.c:473-499 | noise does no harm to any sequence of packets behind it if and only if the same holds |
| Framing.DrainAppend | GraphWrap.c:473-499 | draining what was left together with later bytes continues as draining everything at once would |
| Framing.DeliveredInOrder | GraphWrap.c:447-500 | whatever the reads, the packets come out once, complete and in order |
| Framing.DeliveredSoFar | GraphWrap.c:447-500 | before the end, those handed on are the first of those sent, and what is left holds no whole packet |
| Framing.NeverFull | GraphWrap.c:450-451 | with packets of at most the capacity the buffer always has room for the next read |
| Framing.StallsExactly | GraphWrap.c:450-473 | a header in front for which the loop waits is waited for in vain, whatever bytes follow, if and only if its 32-bit size is above the capacity or 0 |
| Framing.FaultsExactly | GraphWrap.c:473-499 | for all bytes, the loop comes to such a header if and only if one is in front of what is left when it stops |
| Framing.NoiseCanSwallow | GraphWrap.c:475-481 | eleven bytes of noise that swallow a packet |
| Framing.ScanCuts | GraphWrap.c:549-560 | cutting loses no byte; payloads are not empty and hold the delimiter as their first byte at most; those after the first, and the rest if anything was cut, begin with it |
| Framing.SplitIsScan | GraphWrap.c:502-561 | whatever the reads, the cuts are those of the whole input |
| Framing.EndToEnd | GraphWrap.c:447-561 | input cut, sent, received in any pieces: every packet is a data packet of that source, one for each cut, and the payloads followed by what is still buffered are the input |
| Endpoint.Buffer.Fill | GraphWrap.c:447-469 | a read appends to the bytes in use |
| Endpoint.Buffer.HandleRemote | GraphWrap.c:472-499 | for all bytes: the loop over the buffer, shifted in place, hands on and leaves what the specification says, and stops with a fault exactly where it does |
| Endpoint.Buffer.HandleLocal | GraphWrap.c:538-561 | so does the scanning loop |
| StableSort.SortSorts | lib/klib/ksort.h:77-124 | the specification is sorted and a permutation |
| StableSort.SortIsStable | lib/klib/ksort.h:77-124 | items that compare the same keep their order |
| StableSort.MergeSorts | lib/klib/ksort.h:99-115 | merging the stable sorts of two neighbouring stretches is the stable sort of both |
| MergeSort.PairPass | lib/klib/ksort.h:86-97 | the first pass sorts all pairs, with a last single item |
| MergeSort.MergeRuns | lib/klib/ksort.h:101-114 | two runs merged into the other array, nothing else touched |
| MergeSort.MergePass | lib/klib/ksort.h:98-116 | a pass turns sorted runs of w into sorted runs of 2w, each the stable sort of the same stretch of the input, with ragged ends |
| MergeSort.RunOfAll | lib/klib/ksort.h:84 | a run as long as the array is the whole sort |
| MergeSort.MergeSort | lib/klib/ksort.h:77-124 | the caller's array holds the stable sort of its first n items, the rest as before, for every n |
| Newick.AddNode | lib/klib/knhx.c:12-42 | the scan after a node: where it stops, the name, the distance, an open bracket |
| Newick.FindOpen | lib/klib/knhx.c:71-72 | the innermost open parenthesis on the stack |
| Newick.LinkKids | lib/klib/knhx.c:76-79 | the parents of the nodes above it are set and nothing else |
| Newick.Close | lib/klib/knhx.c:69-81 | a closing parenthesis: a node over the kids on the stack |
| Newick.ParseNhx | lib/klib/knhx.c:44-92 | the loop on any text gives what the function Parse gives |
| NewickComments.ScanTail | lib/klib/knhx.c:12-42 | the text behind a node, of a name, comments, blanks, distances and other characters in any order, is taken off up to its end: the name is what comes first, the last distance counts and the rest is dropped |
| NewickComments.RunTree | lib/klib/knhx.c:62-86 | the text of a tree with all that adds the table of the bare tree to the nodes and its root to the stack, from any state |
| NewickComments.ParsesWithComments | lib/klib/knhx.c:44-92 | such a text parses without an error to the table of the bare tree |
| NewickComments.StopsWellBits | lib/klib/knhx.c:23-32 | for number formats that end in front of a bracket, a colon or a blank this asks only that comments hold no closing bracket and that no other character follows a distance |
| NewickComments.ErrorExactly | lib/klib/knhx.c:22-29 | on every text the error flag is set if and only if some open bracket has no closing bracket behind it |
| NewickLinks.ParsedIsLinked | lib/klib/knhx.c:44-92 | on every text the kids of a node come before it in ascending order and name it as their parent, and a node that names a parent is among its kids |
| NewickRoundTrip.FormatIs | lib/klib/knhx.c:121-143 | printing the table of a tree, found in any larger table, prints the tree |
| NewickRoundTrip.RoundTrip | lib/klib/knhx.c:44-149 | the postorder table of any tree with clean names prints as the tree, and that text parses without error to the same table: names, distances, kids and parents |
| NewickHearing.RunNames | lib/klib/knhx.c:12-42 | no name the parser makes holds a blank, a comma, a closing parenthesis, a bracket or a colon |
| NewickHearing.HearTree | lib/klib/knhx.c:62-86 | on the text of any tree with such names the parser makes nodes of exactly these names, opening parentheses in front of leaf names stripped and leaves that print nothing left out |
| NewickExact.RoundTripsExactly | lib/klib/knhx.c:44-149 | for every tree: printing its table and parsing gives the table back if and only if its names are clean and every leaf prints something that does not begin with a parenthesis |

## Left out

- Sockets, polling, processes, pipes, options, logging and statistics output.
- GraphRouter.c: its forwarding policies are settled by reading one branch each.
- ForwardTable.c, NodeTable.c and IndexTable.c: wrappers around the AVL table; only their comparison matters here.
- The near-full branch of handleLocalData (GraphWrap.c:542-547), which passes a pointer as a length.
- Endpoint.Buffer.HandleRemote: at a header that makes `11 + length` wrap at 32 bits the method stops with a fault; what the code does with it is not modelled.
- KexprEval.Eval: where operands are missing it yields nothing; the code has no test for that.
- Packets larger than the buffer of `mtu * 20` bytes: they are never complete in the buffer.
- Running out of memory, in all parts.
- khash: the variant for sets, which has no values, kh_destroy, and capacities above 2^31.
- Khash.Table.MakeRoom: asks, as Khash.Table.Put does, that a full table may still double.
- Khash.Table.Put: asks that a full table may still double, that is, has fewer than 2^31 buckets.
- kt_for with one thread, which is a plain loop, and kt_forpool, which resets its counters outside the mutex.
- ParallelFor.CallsExactlyOnce: asks that n plus the threads' last strides stay below LONG_MAX.
- Threads' local work: a call of a user function is one step of the models, and values passed between pipeline steps are not modelled.
- kexpr: reading characters into tokens, numbers and strings, and the checks for unset functions and variables before evaluation.
- BoyerMoore.Find: patterns of length 0, for which the code reads before its table.
- AVL: avl_insert, avl_replace, avl_copy, avl_destroy and the other traverser functions; the item of a node is set when the node is made and stays.
- AvlTable.AvlTable.Probe: asks that the cached comparison results fit their array, as the code does without checking; AvlProbeBounds says when they do.
- AvlTraverser.AvlTraverser.Step: asks for at most 33 levels, which the path stack can hold; the current item must still be in the table; generations do not wrap around.
- kavl.h: the iterator, kavl_free, erasing the first of an empty tree, and trees of 2^32 nodes or more, whose sizes wrap.
- Kavl.KavlTree.Insert: the size stores of a rotation come before its pointer stores, not between them.
- B-tree: the iterator, the node counter, the formula that derives the minimum degree from a node size, and the pointer that a put returns.
- Kbtree.Kbtree.Del: asks that a key equal to the given one is there, since a leaf is changed without comparing.
- kalloc: krealloc and kcalloc, a null allocator and km_destroy.
- Endpoint.Buffer.HandleLocal: asks that the read leaves the buffer less than nearly full, and takes every write to be complete.
- Kavl.KavlTree.EraseFirst: asks for a tree with items; on an empty one the code takes its own dummy node for the first.
- Kalloc.Kmem.MoreCore: asks, as Kalloc.Kmem.Malloc does, for a place of the size of the core, which malloc provides if the product of units and header size does not wrap around; Kalloc.CoreBytesSufficeExactly says when it does not.
- Kalloc.Kmem.Malloc: the address of a new core is a parameter, which must lie apart from the cores before and not touch the base block.
- Merge sort of more than 2^63 items, where the shift overflows; the other sorts of ksort.h.
- knhx: reading and printing of numbers is a parameter that must round-trip; a closing parenthesis without an open one, where the code reads below its stack, is reported as a failure; distances below zero print as if unset.
- lib/RingBuffer.c, lib/LinkedList.c, kdq.h, kvec.h, klist.h, ksa.c, ksw.c, kson.c, the numerical and the compression code, and archive/.
- KexprErrors.RefusesExactly: asks that every function name is followed by a left parenthesis, which is what makes it one when tokens are read (kexpr.c:175).
- NewickComments.ErrorExactly: asks that reading a number takes no open bracket, which holds of strtod.
