# cut: indexed min-heap, adjacency lists and logger, in Dafny

This project models three pieces of the `cut` C++ utility library and proves what they promise.

- **`cut::MinHeap`** (`minheap.dfy`, module `MinHeaps`) is an indexed binary heap over the elements 0..n-1.
  - It is a class whose fields are the heap array of (stored key, element) pairs, the inverse permutation (element to position) and the sign (+1 for a min-heap, -1 for a max-heap, whose keys are stored negated).
  - `MoveUp`, `MoveDown`, `Insert`, `DecreaseKey` and `IncreaseKey` are methods with loops. They keep the inverse-permutation invariant (`Valid`) and are proved to restore heap order (`Ordered`).
  - The layout puts the root at 0 and the children of v at 2v and 2v + 1. So `MoveDown` started at the root treats the root as its own child and can swap it with itself forever.
  - That loop is modelled as written. The pure function `DownRun` runs it with fuel, and `DownRunReturnsIff` proves exactly when it returns. `MoveDown` and the key updates that call it require that condition.
- **`cut::AdjacencyList`** and **`cut::CompatAdjacencyList`** (`adjlists.dfy`, module `AdjacencyLists`; the compact class is named `CompactAdjacencyList` here) implement one read interface over a map from node indices to integer sequences.
  - The editable list is a class over `seq<seq<int>>`. Every edit checks its indices (`OutOfBound`) and its domain condition (`Assertion`) before writing, and states its whole new state.
  - The compact list keeps the same lists in CSR form: a flat adjacency array plus prefix offsets.
  - `adjspec.dfy` (module `AdjacencySpec`) defines the lists as pure values and proves their properties:
    - what the pair-list constructors build;
    - sorting as a unique sorted permutation;
    - the CSR invariant and its slices;
    - flattening and offsets.
  - `adjscenario.dfy` (module `AdjacencyScenario`) follows the library's own adjacency-list driver (`src/tests/adjlist.cpp`) pass by pass and proves that every check it makes passes.
- **`cut::Logger`** (`logging.dfy`, module `Logging`) covers:
  - the three-bit type mask (`bv3`: MESSAGE = 1, WARNING = 2, ERROR = 4) and its `Enable` (OR) and `Disable` (AND-NOT);
  - the filtering and the line format of `Log`;
  - the timestamp flag;
  - the name table kept by `AttachLogger`, `GetLogger` and `DeleteLogger`.
- **Error reporting.** `outcomes.dfy` (module `Outcomes`) holds the two failure kinds, `OutOfBound` (the `CUTCheck*` macros) and `Assertion` (`CUTAssert`). The source throws them as exceptions; here they are `Result` values (for queries) and `Outcome` values (for edits).

## Model

| member | source | states |
|---|---|---|
| MinHeaps.MinChild | src/algo/minheap.cpp:51-60 | The position MoveDown compares v with is a child of v, or v itself (possible only at the root), and no child of v holds a smaller stored key. |
| MinHeaps.DownRun | src/algo/minheap.cpp:49-73 | MoveDown's loop run for a bounded number of exchanges. The element only moves down: where the loop stops is v or a position below it, and it stops at v only when v has no child or its least child holds a strictly larger key. |
| MinHeaps.DownRunStallsAtRoot | src/algo/minheap.cpp:49-73 | At the root, with one element or a root no larger than position 1, the sift-down loop is still running after any number of iterations. |
| MinHeaps.DownRunStops | src/algo/minheap.cpp:49-73 | Away from the root, or at a root strictly larger than position 1, the loop stops within n - v iterations. |
| MinHeaps.DownRunReturnsIff | src/algo/minheap.cpp:46-75 | MoveDown from v returns if and only if v != 0 or (n >= 2 and stored[0] > stored[1]). |
| MinHeaps.RootIsMinimum | src/algo/minheap.cpp:15-20 | In a heap-ordered array the root holds a smallest stored key. |
| MinHeaps.SecondIsMinimumBelowRoot | src/algo/minheap.cpp:56-64 | In a heap-ordered array position 1 holds a smallest stored key among positions 1..n-1. |
| MinHeaps.LoweredIsUpSafe | src/algo/minheap.cpp:88-94 | Lowering one stored key of an ordered heap leaves a heap that sift-up repairs from that position. |
| MinHeaps.RaisedIsDownSafe | src/algo/minheap.cpp:105-111 | Raising one stored key of an ordered heap leaves a heap that sift-down repairs from that position. |
| MinHeaps.UpStep | src/algo/minheap.cpp:30-42 | Exchanging v with a parent that is not strictly smaller moves the only order defect up to the parent. |
| MinHeaps.UpDone | src/algo/minheap.cpp:28-33 | When sift-up stops, at the root or below a strictly smaller parent, the heap is ordered. |
| MinHeaps.DownStep | src/algo/minheap.cpp:63-73 | Exchanging v with its least child, when that child is not larger, moves the only order defect down to the child. |
| MinHeaps.DownDone | src/algo/minheap.cpp:51-64 | When sift-down stops, with no child or a strictly larger least child, the heap is ordered. |
| MinHeaps.MinHeap.constructor | src/algo/minheap.cpp:127-139 | The built heap is valid and ordered. It is a max-heap exactly when asked. Its size is the number of keys, and element i has key Keys[i]. |
| MinHeaps.MinHeap.FindMin | src/algo/minheap.cpp:15-20 | OutOfBound exactly when empty. Otherwise the pair at the root is returned as (caller-visible key, element), and that key is a minimum of a min-heap or a maximum of a max-heap. |
| MinHeaps.MinHeap.GetKey | src/algo/minheap.cpp:77-82 | OutOfBound exactly when element >= Size(). Otherwise the element's caller-visible key. |
| MinHeaps.MinHeap.Size | src/algo/minheap.cpp:22 | The number of elements, which is the number of keys the heap holds (one per element 0..Size()-1). |
| MinHeaps.MinHeap.PickChild | src/algo/minheap.cpp:51-60 | The child MoveDown's loop picks is MinChild: no child of v holds a smaller stored key. |
| MinHeaps.MinHeap.Exchange | src/algo/minheap.cpp:36-39 | Swaps two slots and the permutation entries of the two elements they hold. The inverse permutation and every key are kept. |
| MinHeaps.MinHeap.Carry | src/algo/minheap.cpp:67-70 | The same exchange seen from the sifted element: it lands at the target position, and the rest of the heap is swapped accordingly. |
| MinHeaps.MinHeap.MoveUp | src/algo/minheap.cpp:25-44 | Keeps the permutation and the keys. Ends with an ordered heap when the only defect was between the element and its parent. |
| MinHeaps.MinHeap.MoveDown | src/algo/minheap.cpp:46-75 | Under its exact termination condition: keeps the permutation and the keys, the element ends where DownRun from its old position stops, and the heap is ordered when the only defect was between the element and its children. |
| MinHeaps.MinHeap.Descend | src/algo/minheap.cpp:66-73 | One exchange of the loop: the element moves to its least child, DownRun takes the same step with one less fuel, and a single order defect moves down with the element. |
| MinHeaps.MinHeap.Insert | src/algo/minheap.cpp:119-124 | Appends the next element with the given key, and the heap stays valid and ordered. |
| MinHeaps.MinHeap.DecreaseKey | src/algo/minheap.cpp:84-99 | OutOfBound, with nothing changed, when element >= Size(). Otherwise the caller-visible key drops by the decrement in both modes, all other keys and the size stay, and a non-negative decrement keeps the heap ordered. |
| MinHeaps.MinHeap.IncreaseKey | src/algo/minheap.cpp:101-116 | The mirror of DecreaseKey: the key rises by the increment in both modes. |
| MinHeaps.MinHeap.SiftDownReturnsIff | src/algo/minheap.cpp:101-111 | In an ordered heap, raising an element by d lets MoveDown return exactly when the element is not at the root or another element's stored key is below the raised one. So raising the only element of a one-element min-heap never returns. |
| MinHeaps.RaiseFirst | src/tests/algo.cpp:50-52 | IncreaseKey(j, d) for every j < n raises exactly those keys and keeps the heap ordered. |
| MinHeaps.LowerScenario | src/tests/algo.cpp:37-49 | Keys 0..999 give FindMin = (0, 0); after DecreaseKey(655, 656) it is (-1, 655). |
| MinHeaps.HeapScenario | src/tests/algo.cpp:37-55 | The whole min-heap test: after raising elements 0..700 by 1024, FindMin = (701, 701). |
| AdjacencySpec.IndexOf | src/algo/adjlist/adjlist.cpp:251-252 | Position of the first occurrence (std::find). It is \|s\| exactly when the value is absent. |
| AdjacencySpec.InsertAt | src/algo/adjlist/adjlist.cpp:227 | Insertion at p: earlier elements stay in place and later ones shift up by one. |
| AdjacencySpec.RemoveAt | src/algo/adjlist/adjlist.cpp:263 | Erasure at p: earlier elements stay in place and later ones shift down by one. |
| AdjacencySpec.SwapAt | src/algo/adjlist/adjlist.cpp:198 | Exchange of two positions, with every other position kept. |
| AdjacencySpec.RemoveAfterInsert | include/cut/algo/adjlist.hpp:243-248 | Erasing what was just inserted gives back the original sequence. |
| AdjacencySpec.InsertAfterRemove | include/cut/algo/adjlist.hpp:272-277 | Re-inserting what was just erased gives back the original sequence. |
| AdjacencySpec.SwapTwice | include/cut/algo/adjlist.hpp:257-259 | Swapping twice is the identity, and swapping a position with itself changes nothing. |
| AdjacencySpec.EditsKeepNoRepeats | src/algo/adjlist/adjlist.cpp:210-264 | Removal, guarded insertion, guarded append and guarded overwrite keep a list free of repeats. |
| AdjacencySpec.NodeCount | src/algo/adjlist/adjlist.cpp:29-32 | One past the largest first value, or 0: every first value lies below it and, when it is positive, one pair attains it. |
| AdjacencySpec.SecondsOf | src/algo/adjlist/adjlist.cpp:47-55 | The seconds of node i's pairs are exactly the x with (i, x) among the pairs. |
| AdjacencySpec.Dedup | src/algo/adjlist/adjlist.cpp:47-55 | Dropping repeats gives a repeat-free list with the same members. |
| AdjacencySpec.DedupOfNoRepeats | src/algo/adjlist/adjlist.cpp:47-55 | A list without repeats is left as it is. |
| AdjacencySpec.DedupKeepsFirstOccurrenceOrder | src/algo/adjlist/adjlist.cpp:47-55 | Values keep the order of their first occurrences. |
| AdjacencySpec.PairLists | src/algo/adjlist/adjlist.cpp:25-56 | The lists the pair-list constructor builds over n nodes: node i's list has no repeats and holds exactly the x with (i, x) among the pairs. |
| AdjacencySpec.PairListsStep | src/algo/adjlist/adjlist.cpp:47-55 | Adding one more pair appends its second to its node's list, unless the node is out of range or the second is already there. |
| AdjacencySpec.InsertSorted | src/adjlist/cadjlist.cpp:24 | Sorted insertion keeps the list sorted and adds exactly one element. |
| AdjacencySpec.SortConnections | src/adjlist/cadjlist.cpp:22-24 | The sorted copy of the pairs is lexicographically sorted and a permutation of them. |
| AdjacencySpec.SortedPermutationUnique | src/adjlist/cadjlist.cpp:24 | Two sorted permutations of the same pairs are equal, so any correct sort gives the same layout. |
| AdjacencySpec.LastHasLargestFirst | src/adjlist/cadjlist.cpp:25 | In the sorted pairs no first value exceeds the last one. |
| AdjacencySpec.PermutationMember | src/adjlist/cadjlist.cpp:24 | Sorting loses no pair: a member of a list is a member of every permutation of it. |
| AdjacencySpec.SortedNodeCount | src/adjlist/cadjlist.cpp:25 | The compact node count, one past the last sorted first value, is NodeCount of the pairs. |
| AdjacencySpec.CountBelow | src/adjlist/cadjlist.cpp:31-41 | The number of pairs filed under a node below t; at most the number of pairs. |
| AdjacencySpec.Owner | src/adjlist/cadjlist.cpp:30-38 | The node a pair is filed under: its own first value when that is non-negative, and node 0 otherwise, because the cursor starts at node 0 and only moves forward. |
| AdjacencySpec.Seconds | src/adjlist/cadjlist.cpp:39 | The flat array: the seconds of the sorted pairs, position by position. |
| AdjacencySpec.BucketMembers | src/adjlist/cadjlist.cpp:31-41 | Every member of node i's bucket is the second of a pair filed under i. |
| AdjacencySpec.CountBelowMonotone | src/adjlist/cadjlist.cpp:34-40 | The offsets never decrease as the node grows. |
| AdjacencySpec.BucketNone | src/adjlist/cadjlist.cpp:34-38 | A node with no pair gets an empty slice. |
| AdjacencySpec.OwnersUpToLast | src/adjlist/cadjlist.cpp:33-38 | No pair before the last is filed under a later node than the last pair's. |
| AdjacencySpec.SortedSlice | src/adjlist/cadjlist.cpp:31-41 | In the sorted pairs, node i's bucket is the flat array between offsets i and i + 1. |
| AdjacencySpec.BucketInsert | src/adjlist/cadjlist.cpp:24 | Sorted insertion adds the pair's second to its own node's bucket (as a multiset) and to no other. |
| AdjacencySpec.BucketOfSorted | src/adjlist/cadjlist.cpp:22-41 | Sorting keeps every node's bucket as a multiset: the compact list keeps repeats. |
| AdjacencySpec.BucketAscending | src/adjlist/cadjlist.cpp:24-41 | In the sorted pairs every bucket is ascending. For node 0 this needs no negative first value, since negative firsts are filed under 0. |
| AdjacencySpec.Slices | src/adjlist/cadjlist.cpp:129-144 | A CSR layout's lists: one per node, of length idx[i + 1] - idx[i]. |
| AdjacencySpec.Offsets | src/adjlist/cadjlist.cpp:64-71 | The running sums of the list lengths, starting at 0, one more than there are lists. |
| AdjacencySpec.FlattenPrefix | src/adjlist/cadjlist.cpp:68-74 | Flattening a prefix of the lists gives a prefix of the flat array. |
| AdjacencySpec.OffsetsAscend | src/adjlist/cadjlist.cpp:64-71 | The running sums never decrease. |
| AdjacencySpec.FlattenIsCsr | src/adjlist/cadjlist.cpp:63-74 | Flattening and offsetting any lists gives a valid CSR layout whose slices are those lists. |
| AdjacencySpec.OffsetsStep | src/adjlist/cadjlist.cpp:70-71 | One more node adds one more offset: the previous one plus its degree. |
| AdjacencySpec.FlattenSlice | src/adjlist/cadjlist.cpp:68-74 | Node i's list sits in the flat array between offsets i and i + 1. |
| AdjacencySpec.FlattenSlices | src/adjlist/cadjlist.cpp:63-74 | Reading a CSR layout node by node and flattening again gives back the very same arrays. |
| AdjacencySpec.FlattenSlicesPrefix | src/adjlist/cadjlist.cpp:68-74 | The first t slices flatten to the flat array up to offset t. |
| AdjacencySpec.FlattenLength | src/adjlist/cadjlist.cpp:128 | The flat array's length is the total number of adjacents. |
| AdjacencySpec.Star | src/tests/adjlist.cpp:20-24 | The driver's pairs (i, n) for i < n. |
| AdjacencySpec.StarLayout | src/tests/adjlist.cpp:20-27 | The star is already sorted, its node count is n, and every node's bucket is [n]. |
| AdjacencyLists.AdjacencyList.constructor | src/algo/adjlist/adjlist.cpp:18-23 | N empty lists and no connections. |
| AdjacencyLists.AdjacencyList.FromConnections | src/algo/adjlist/adjlist.cpp:25-56 | The lists are PairLists over NodeCount nodes, repeats dropped in first-occurrence order, and NumConnections is the raw pair count. |
| AdjacencyLists.AdjacencyList.AddConnections | src/algo/adjlist/adjlist.cpp:47-55 | AddAdjacent for every pair in order, failures ignored, gives PairLists. |
| AdjacencyLists.AdjacencyList.CountNodes | src/algo/adjlist/adjlist.cpp:29-32 | The counting loop computes NodeCount. |
| AdjacencyLists.AdjacencyList.FromCompact | src/algo/adjlist/adjlist.cpp:74-88 | The generic conversion copies every node's sequence in order and takes the source's connection count, which is the total length. |
| AdjacencyLists.AdjacencyList.Unpack | src/algo/adjlist/adjlist.cpp:77-88 | Reading a valid compact list node by node, each adjacent in turn, yields exactly its sequence of lists. |
| AdjacencyLists.AdjacencyList.UnpackAt | src/algo/adjlist/adjlist.cpp:84-87 | One node of the reading loop: after the lists of the nodes before i, node i's list comes next, whole and in order. |
| AdjacencyLists.AdjacencyList.CopyOf | src/algo/adjlist/adjlist.cpp:58-89 | The copy constructor on another AdjacencyList: the fast path has no return, so each list ends up doubled and is no longer repeat-free when non-empty. The count is kept. |
| AdjacencyLists.AdjacencyList.NumNodes | src/algo/adjlist/adjlist.cpp:158 | The number of node lists, never negative. |
| AdjacencyLists.AdjacencyList.NumConnections | src/algo/adjlist/adjlist.cpp:159 | The count cached by the constructor. No edit updates it, so it need not equal the number of adjacents. |
| AdjacencyLists.AdjacencyList.NumAdjacents | src/algo/adjlist/adjlist.cpp:160-166 | OutOfBound exactly when i is out of range; otherwise node i's degree. |
| AdjacencyLists.AdjacencyList.GetAdjacent | src/algo/adjlist/adjlist.cpp:167-175 | OutOfBound exactly when i or idx is out of range; otherwise the value at that position. |
| AdjacencyLists.AdjacencyList.AddNode | src/algo/adjlist/adjlist.cpp:178-181 | Appends an empty list, so the new node's index is the old NumNodes(). |
| AdjacencyLists.AdjacencyList.InsertNode | src/algo/adjlist/adjlist.cpp:183-189 | OutOfBound unless 0 <= i < NumNodes(). Otherwise an empty list is inserted at i, and later lists shift up intact. |
| AdjacencyLists.AdjacencyList.SwapNodes | src/algo/adjlist/adjlist.cpp:191-199 | OutOfBound unless both indices are in range; otherwise the two lists are exchanged. |
| AdjacencyLists.AdjacencyList.RemoveNode | src/algo/adjlist/adjlist.cpp:201-207 | OutOfBound unless i is in range. Otherwise list i is erased, and later lists shift down intact. |
| AdjacencyLists.AdjacencyList.AddAdjacent | src/algo/adjlist/adjlist.cpp:210-217 | OutOfBound, then Assertion if j is already listed. Otherwise j is appended to list i and nothing else changes. |
| AdjacencyLists.AdjacencyList.InsertAdjacent | src/algo/adjlist/adjlist.cpp:219-228 | OutOfBound unless 0 <= idx < NumAdjacents(i), then Assertion for a duplicate. Otherwise j is inserted at idx and nothing else changes. |
| AdjacencyLists.AdjacencyList.UpdateAdjacent | src/algo/adjlist/adjlist.cpp:230-243 | Bounds first. Rewriting the same value is a successful no-op. Otherwise Assertion if j is present, else position idx is overwritten. |
| AdjacencyLists.AdjacencyList.ReplaceAdjacent | src/algo/adjlist/adjlist.cpp:245-254 | Assertion if k is present, then if j is absent. Otherwise the first j becomes k. ReplaceAdjacent(i, j, j) always fails. |
| AdjacencyLists.AdjacencyList.RemoveAdjacent | src/algo/adjlist/adjlist.cpp:256-264 | Bounds first; otherwise position idx is erased and later entries shift down. |
| AdjacencyLists.CompactAdjacencyList.FromConnections | src/adjlist/cadjlist.cpp:18-44 | The layout is valid, with NodeCount nodes and the raw pair count. The flat array is the sorted seconds, and node i's list is its bucket of the sorted pairs. |
| AdjacencyLists.CompactAdjacencyList.Layout | src/adjlist/cadjlist.cpp:27-41 | The cursor loop produces the sorted seconds and the offsets CountBelow(0..n). |
| AdjacencyLists.CompactAdjacencyList.FileAt | src/adjlist/cadjlist.cpp:33-40 | One pass of the cursor loop: the cursor reaches the pair's node, every offset it passes is closed at the running count, and the open offset counts the pair. |
| AdjacencyLists.CompactAdjacencyList.FromList | src/adjlist/cadjlist.cpp:63-74 | The generic conversion flattens the lists and offsets them by running sums. The result is valid, and its lists are the source's. |
| AdjacencyLists.CompactAdjacencyList.Pack | src/adjlist/cadjlist.cpp:64-74 | The conversion's loop computes Flatten and Offsets. |
| AdjacencyLists.CompactAdjacencyList.CopyOf | src/adjlist/cadjlist.cpp:47-75 | The copy constructor on another compact list: the fast path falls through, so the flat array is doubled and the offsets are unchanged. The layout is then invalid, but it can still be read, and every GetAdjacent returns what it returns on the source. |
| AdjacencyLists.CompactAdjacencyList.ReadsAsHalf | src/adjlist/cadjlist.cpp:136-144 | A layout with a valid list's offsets over its flat array written twice keeps its slices in range, and every GetAdjacent on it returns what the valid list returns: the offsets never reach the second copy. |
| AdjacencyLists.CompactAdjacencyList.Refill | src/adjlist/cadjlist.cpp:63-74 | The generic loop run over the copied arrays appends the source's adjacents again and rebuilds the same offsets. |
| AdjacencyLists.CompactAdjacencyList.RefillAt | src/adjlist/cadjlist.cpp:70-73 | One node of the generic loop over the copied arrays: the offset it writes is the one already there, and the node's adjacents are appended once more. |
| AdjacencyLists.CompactAdjacencyList.AppendRow | src/adjlist/cadjlist.cpp:72-73 | The inner loop appends node i's list. |
| AdjacencyLists.CompactAdjacencyList.Move | src/adjlist/cadjlist.cpp:77-82 | Takes both arrays unchanged and leaves the source empty, so every GetAdjacent on the source is OutOfBound. |
| AdjacencyLists.CompactAdjacencyList.MoveFrom | src/adjlist/cadjlist.cpp:117-122 | Move assignment: takes both arrays unchanged and leaves the source empty, so every GetAdjacent on the source is OutOfBound. |
| AdjacencyLists.CompactAdjacencyList.NumNodes | src/adjlist/cadjlist.cpp:127 | One less than the number of offsets, which in a valid layout is the number of lists. |
| AdjacencyLists.CompactAdjacencyList.ConnectionsAreTotalLength | src/adjlist/cadjlist.cpp:128 | In a valid layout NumConnections is the total degree, and the flat array is the lists flattened. |
| AdjacencyLists.CompactAdjacencyList.NumAdjacents | src/adjlist/cadjlist.cpp:129-135 | OutOfBound exactly when i is out of range; otherwise the offset difference, which is node i's list length. |
| AdjacencyLists.CompactAdjacencyList.NumConnections | src/adjlist/cadjlist.cpp:128 | The length of the flat array. In a valid layout it is the number of adjacents of all nodes. |
| AdjacencyLists.CompactAdjacencyList.GetAdjacent | src/adjlist/cadjlist.cpp:136-144 | On any layout whose offsets ascend inside the flat array (valid, moved-from or doubled): OutOfBound exactly when i or idx is out of range, otherwise the flat array at offset i plus idx. On a valid layout, that is node i's list at idx. |
| AdjacencyLists.CompactRoundTrip | src/tests/adjlist.cpp:27-30 | Compact to editable and back gives the very same arrays and lists. |
| AdjacencyLists.EditableRoundTrip | src/tests/adjlist.cpp:85-86 | Editable to compact and back gives the same lists, with NumConnections now the total length. |
| AdjacencyLists.AdvanceCursor | src/adjlist/cadjlist.cpp:34-38 | Moving the cursor to the next node closes its offset at the running count. |
| AdjacencyLists.FileNext | src/adjlist/cadjlist.cpp:39-40 | Filing a pair under the cursor's node advances the open offset by one. |
| AdjacencyLists.FilledAll | src/adjlist/cadjlist.cpp:31-41 | With every pair filed and the cursor on the last node, the offsets are CountBelow(0..n). |
| AdjacencyLists.CsrOfSorted | src/adjlist/cadjlist.cpp:28-41 | Those offsets over the seconds form a valid CSR layout. |
| AdjacencyLists.SlicesOfSorted | src/adjlist/cadjlist.cpp:31-41 | For sorted pairs the layout's slices are the buckets. |
| AdjacencyScenario.Half | src/tests/adjlist.cpp:81 | C++ division by 2, truncating toward zero, bounded on both sides for either sign. |
| AdjacencyScenario.KeepEven | src/tests/adjlist.cpp:60-66 | The even values of a list: exactly the even members, in order. |
| AdjacencyScenario.FillNode | src/tests/adjlist.cpp:46-47 | Every AddAdjacent(i, j), j = i..N-2, succeeds, and node i ends with N, i, ..., N - 2. |
| AdjacencyScenario.FillAbove | src/tests/adjlist.cpp:43-48 | After the filling loops, node t holds N, t, ..., N - 2. |
| AdjacencyScenario.RemoveOddStep | src/tests/adjlist.cpp:51-52 | Removing node i from the top moves the pattern on: lower nodes stay original, and every other original node remains above. |
| AdjacencyScenario.RemoveOddAt | src/tests/adjlist.cpp:51-52 | One RemoveNode call of the pass: it removes node i, keeps the original nodes below it, and leaves every other original node above. |
| AdjacencyScenario.RemoveOddNodes | src/tests/adjlist.cpp:50-55 | RemoveNode(2m-1), RemoveNode(2m-3), ... all succeed; m nodes remain, node t being the old node 2t. |
| AdjacencyScenario.ScanStep | src/tests/adjlist.cpp:61-65 | One backward step: an odd value is removed and an even one kept, leaving the suffix holding only its even values. |
| AdjacencyScenario.KeepEvenAt | src/tests/adjlist.cpp:61-65 | One step of the backward scan on the list: the suffix from idx on ends up holding exactly its even values. |
| AdjacencyScenario.KeepEvenNode | src/tests/adjlist.cpp:60-66 | The backward scan leaves node i with exactly its even values in order, and nothing else changes. |
| AdjacencyScenario.RemoveOddAdjacents | src/tests/adjlist.cpp:57-74 | Every node keeps exactly its even values, so the evenness check passes. |
| AdjacencyScenario.HalvingStep | src/tests/adjlist.cpp:79-82 | When halving does not collide, each UpdateAdjacent succeeds and extends the halved prefix. |
| AdjacencyScenario.HalveAt | src/tests/adjlist.cpp:81 | One UpdateAdjacent call of the halving pass succeeds and halves one more position of node i. Every other node is unchanged. |
| AdjacencyScenario.HalveNode | src/tests/adjlist.cpp:79-82 | The forward updates halve every value of node i, and nothing else changes. |
| AdjacencyScenario.HalveAdjacents | src/tests/adjlist.cpp:76-83 | Every value of every node ends halved. |
| AdjacencyScenario.KeepEvenPair | src/tests/adjlist.cpp:61-65 | Of two consecutive values from an even start, the even one is kept and the odd one dropped. |
| AdjacencyScenario.KeepEvenSpan | src/tests/adjlist.cpp:57-66 | The even values of 2a, ..., 2b - 2 are 2a, 2a + 2, ..., 2b - 2. |
| AdjacencyScenario.KeepEvenOfFilled | src/tests/adjlist.cpp:57-66 | A remaining node keeps N followed by its even values. |
| AdjacencyScenario.HalvingOfDoubles | src/tests/adjlist.cpp:76-83 | For odd M, halving those values never collides and gives M, k, ..., M - 1. |
| AdjacencyScenario.StarLists | src/tests/adjlist.cpp:20-27 | The compact list of the star on 10 nodes has node i holding just 10. |
| AdjacencyScenario.StarScenario | src/tests/adjlist.cpp:20-41 | The editable copy has 10 nodes, each with one adjacent, 10, so the first checks pass. |
| AdjacencyScenario.EditScenario | src/tests/adjlist.cpp:43-83 | After filling, removing odd nodes, removing odd adjacents and halving, 5 nodes remain and node k holds 5, k, ..., 4. |
| AdjacencyScenario.DriverBounds | src/tests/adjlist.cpp:94-103 | In those lists node i holds only values between i and 5. |
| AdjacencyScenario.AdjacencyTest | src/tests/adjlist.cpp:18-107 | The whole driver: the final compact list is valid with 5 nodes, and every GetAdjacent(i, j) value v satisfies i <= v <= 5, so no check fails. |
| Logging.MaskIsItsTypes | src/log/log.cpp:45-46 | A mask is determined by which of the three types it lets through. |
| Logging.EnableMask | src/log/log.cpp:80-83 | After Enable(T) a type is let through iff it is in T or was let through before. |
| Logging.DisableMask | src/log/log.cpp:84-87 | After Disable(T) a type is let through iff it is not in T and was let through before. |
| Logging.NamedMasks | src/tests/log.cpp:22-41 | ALL admits every type and NONE none. IMPORTANT admits all but MESSAGE, so Disable(IMPORTANT) on ALL leaves MESSAGE. Enable(NONE) changes nothing and Enable(ALL) gives ALL. |
| Logging.Record | src/log/log.cpp:48-69 | A line is the optional timestamp and a space, then the label, then the message, which ends the line. |
| Logging.Label | src/log/log.cpp:51-67 | The label is non-empty exactly for the three single types. Each label has the form "(NAME): ". |
| Logging.RecordIsUnambiguous | src/log/log.cpp:48-69 | Under the same timestamp setting, two equal lines have the same type and message. |
| Logging.Logger.constructor | src/log/log.cpp:21-30 | Keeps the file name, the mask and the timestamp flag, with an empty file. |
| Logging.Logger.Log | src/log/log.cpp:39-70 | Assertion unless the type is exactly one of the three. Otherwise one line is appended iff the mask admits the type. |
| Logging.Logger.Message | src/log/log.cpp:72 | Log(MESSAGE, msg). |
| Logging.Logger.Warning | src/log/log.cpp:73 | Log(WARNING, msg). |
| Logging.Logger.Error | src/log/log.cpp:74 | Log(ERROR, msg). |
| Logging.Logger.SetMask | src/log/log.cpp:78 | The mask becomes the given one. |
| Logging.Logger.GetMask | src/log/log.cpp:77 | The mask that Log filters by: a single type is admitted by the result exactly when the mask admits it. |
| Logging.Logger.Enable | src/log/log.cpp:80-83 | The mask becomes EnableMask of the old one. |
| Logging.Logger.Disable | src/log/log.cpp:84-87 | The mask becomes DisableMask of the old one. |
| Logging.Logger.EnableMessages | src/log/log.cpp:90 | MESSAGE is admitted afterwards, and the other two types are as before. |
| Logging.Logger.DisableMessages | src/log/log.cpp:91 | MESSAGE is dropped afterwards, and the other two types are as before. |
| Logging.Logger.EnableWarnings | src/log/log.cpp:92 | WARNING is admitted afterwards, and the other two types are as before. |
| Logging.Logger.DisableWarnings | src/log/log.cpp:93 | WARNING is dropped afterwards, and the other two types are as before. |
| Logging.Logger.EnableErrors | src/log/log.cpp:94 | ERROR is admitted afterwards, and the other two types are as before. |
| Logging.Logger.DisableErrors | src/log/log.cpp:95 | ERROR is dropped afterwards, and the other two types are as before. |
| Logging.Logger.UseTimestamps | src/log/log.cpp:99 | The flag becomes the given value. |
| Logging.Logger.HasTimestamps | src/log/log.cpp:98 | The flag that decides whether Log starts each line with a timestamp. |
| Logging.Logger.EnableTimestamps | src/log/log.cpp:100 | The flag becomes true. |
| Logging.Logger.DisableTimestamps | src/log/log.cpp:101 | The flag becomes false. |
| Logging.Registry.constructor | src/log/log.cpp:18 | The table starts empty. |
| Logging.Registry.Attach | src/log/log.cpp:108-118 | Assertion, with nothing changed, if the name is taken. Otherwise exactly that name is added, with a new logger, and every other entry is kept. |
| Logging.Registry.Get | src/log/log.cpp:120-124 | Assertion exactly when the name is absent; otherwise the logger attached under it. |
| Logging.Registry.Delete | src/log/log.cpp:126-130 | Assertion, with nothing changed, if the name is absent. Otherwise exactly that name is removed. |
| Logging.TrioValues | src/tests/log.cpp:18-35 | The lines a message, a warning and an error leave under ALL, under MESSAGE and under IMPORTANT. |
| Logging.LogTrio | src/tests/log.cpp:18-20 | The three calls append the trio's lines under the current mask and flag. |
| Logging.FirstLoggerScenario | src/tests/log.cpp:17-30 | "first" holds three lines, then the message alone, then three lines again. |
| Logging.SecondLoggerScenario | src/tests/log.cpp:32-44 | "second" holds the warning and the error without timestamps, then both again with timestamps. Only "second" remains in the table. |
| Logging.LogScenario | src/tests/log.cpp:15-50 | The whole logger test: both files' contents, and the names left in the table. |

## Findings

| source | as written | input that shows it | evidently intended | confidence | as-written member | corrected member |
|---|---|---|---|---|---|---|
| src/algo/minheap.cpp:49-73 | With the root at position 0 and the children of v at 2v and 2v + 1, the root's first candidate child is the root itself. MoveDown then swaps the root with itself and loops forever. | MoveDown on the root of a one-element heap, or of a heap whose root key is no larger than position 1's. IncreaseKey on the only element of a min-heap is one such call. | Sift-down should stop once no child is strictly smaller, and should end within n - v exchanges. | high; not executed | MinHeaps.DownRunStallsAtRoot, MinHeaps.MinHeap.SiftDownReturnsIff | MinHeaps.DownRunStops |
| src/algo/adjlist/adjlist.cpp:62-72 | The same-class fast path of the editable list's copy constructor copies the lists and the count but does not return. The generic loop then appends every adjacent once more. | Copying an editable list in which some node has at least one adjacent. Every list comes out as itself twice, so it repeats values. | A copy holds the same lists as the original, as the generic conversion alone gives. | high; not executed | AdjacencyLists.AdjacencyList.CopyOf | AdjacencyLists.AdjacencyList.FromCompact, AdjacencyLists.EditableRoundTrip |
| src/adjlist/cadjlist.cpp:51-61 | The compact list's copy constructor has the same missing return. The generic loop rewrites every offset with its own value and appends the flat array once more. | Copying a compact list with at least one adjacent. The flat array is doubled, NumConnections doubles, and the layout is no longer valid CSR. | The copy has the same flat array and offsets as the original. | high; not executed | AdjacencyLists.CompactAdjacencyList.CopyOf | AdjacencyLists.CompactAdjacencyList.FromList, AdjacencyLists.CompactRoundTrip |

## Left out

- Heap keys are `int`, not `double`. Rounding, NaN and infinities are not modelled.
- `MinHeap(const double*, size_t, bool)` and `SetKey` are declared in `include/cut/algo/minheap.hpp` but defined nowhere in the source, so there is nothing to model.
- The randomised parts of the heap test (`src/tests/algo.cpp:59-94`: the shuffle driven by `std::mt19937`) are not modelled; only the deterministic first part is.
- MinHeaps.MinHeap.MoveDown: requires its exact termination condition, `SiftDownReturns`, instead of modelling a call that never returns. `DownRun`, `DownRunStallsAtRoot` and `DownRunReturnsIff` state the divergence separately.
- MinHeaps.MinHeap.DecreaseKey: ensures heap order only for a non-negative decrement. The source does not check the sign, and a negative decrement sifts the wrong way.
- MinHeaps.MinHeap.IncreaseKey: ensures heap order only for a non-negative increment, for the same reason.
- The copy-assignment operators (`src/algo/adjlist/adjlist.cpp:106-139`, `src/adjlist/cadjlist.cpp:84-115`) are not modelled. They re-run the conversion over the target's previous contents.
- The `AdjacencyList` move constructor and move assignment (`src/algo/adjlist/adjlist.cpp:91-104`, `141-154`) are not modelled, because their signatures do not match the declarations in the header. The compact list's move members are modelled.
- AdjacencyLists.AdjacencyList.FromConnections: requires non-negative first values whenever some node is built. A negative first value indexes the per-node counters out of range, which is undefined behaviour in the source.
- AdjacencyLists.CompactAdjacencyList.FromConnections: requires a non-negative largest first value (NodeCount >= 1). The source reads the last pair of an empty list. When every first value is negative it fails in one of two ways. If the largest first is -1 or -2, the offset array has one entry or none, and the first count update writes past its end (`src/adjlist/cadjlist.cpp:40`). If the largest first is -3 or less, the offset array is given a negative size.
- AdjacencyLists.AdjacencyList.constructor: requires a non-negative node count. With a negative N, `resize(N)` (`src/algo/adjlist/adjlist.cpp:21`) converts N to a huge unsigned size and throws `std::length_error`. That exception is not modelled.
- AdjacencyLists.AdjacencyList.FromCompact: requires a valid CSR layout. Two inputs the source accepts are not modelled. A moved-from compact list reports NumNodes() == -1, and `resize(-1)` (`src/algo/adjlist/adjlist.cpp:78`) throws. The doubled list built by CompactAdjacencyList.CopyOf would be read as its first half, with twice the total as the connection count.
- AdjacencyLists.CompactAdjacencyList.CopyOf: requires a valid CSR layout. A copy of a moved-from list, or a copy of a copy, whose layout is already doubled, is not modelled.
- AdjacencyLists.CompactAdjacencyList.MoveFrom: requires a source distinct from the target. Self-move-assignment would leave the list empty in the source and is not modelled.
- AdjacencyScenario.HalveAdjacents: requires that halving never collides within a list (`HalvingSafe`). That condition is proved for the driver's lists (`HalvingOfDoubles`); other lists are not needed by the driver.
- `operator()(i, idx)` of `BaseAdjacencyList` (`src/algo/adjlist/badjlist.cpp:22-25`) is an alias of `GetAdjacent` and has no member of its own.
- `reserve` calls and capacities are not modelled. They do not change any observable content.
- `int` overflow is not modelled: node counts, offsets and adjacent values are unbounded integers.
- The weighted maps, graphs, timers and timestamps are not part of this model. Neither are the exception classes and their messages: failures are the `OutOfBound` and `Assertion` values.
- The logger's file stream is not modelled: opening it, the assertion that it opened, and closing it (`src/log/log.cpp:21-36`). A logger's file is the sequence of lines written to it.
- Timestamp text is a parameter of each logging call, not a clock reading.
- The static name table `m_Logs` is an explicit `Registry` object.
- Logging.LogScenario: the message, warning and error texts are parameters, generalising the fixed strings of the test.
