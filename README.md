# Ternary trie sorter, detection ring buffer and integer FIFO in Dafny

This project models three small sequential Java components and proves properties of the models.

- **TernaryTrieSort** is a character-lazy ternary trie that files string indices.
  - `put` reads one character per depth. It branches `left`/`right` on a smaller or larger
    character at the same depth and goes down `mid` on a match.
  - An index is parked in a vertex's `entries` when the word length or the `limiter` says so.
  - `extend` moves a vertex's parked entries one depth down into a fresh `mid` vertex.
  - `collect` walks the trie in the order left, entries, mid, right and fills `sortedIndices`.
- **CircularArray** is a fixed-size ring of timestamped motion observations.
  - `add` writes slot `counter % states`.
  - `interactionDetected` reads back from the newest observation to decide whether anything
    of interest happened in the last `durationMinutes` minutes.
- **IntegerQueue** is a singly linked FIFO of ints with `first`, `last` and `size` fields.

The project has four files:

- `trie_model.dfy` (module `TrieModel`) holds the value-level semantics of the trie:
  - a `Tree` datatype;
  - `Insert` for `put`, `Extension` for `extend`, `Build` for the constructor's insertion loop
    and `InOrder` for the order in which `collect` emits indices;
  - lemmas about these functions.
- `trie_sorter.dfy` (module `TrieSorter`) holds the heap version.
  - `Node` objects have links and `entries` that are reassigned in place.
  - The sorter object has `root`, `sortedIndices`, `count` and `wordLen`.
  - Every vertex carries a ghost `model` (its subtrie as a `Tree`) and a ghost footprint `Repr`.
  - Every method is proved to change the models exactly as the `TrieModel` functions say.
  - The single Java `put(Node, int, int, int)` is written as `PutNode`. The branches that
    reassign a link are separate methods: `PutLeft`, `PutRight`, `PutMid` and `ExtendMid`.
- `circular_array.dfy` (module `Detection`) holds the ring buffer.
  - It has the three parallel arrays, the `counter` and a ghost `history` of every
    observation added since the last `initialise`.
  - `Expected` says what each slot holds, as a function of the history.
  - `Settled` says, as a predicate on the history, when the scan answers false.
- `integer_queue.dfy` (module `Fifo`) holds the queue.
  - The linked chain of nodes carries a ghost `Contents` sequence and a ghost `nodes`
    sequence.
  - `Run` is the value semantics of a sequence of `enqueue`/`dequeue` calls, with a FIFO lemma.

Conventions of the model:

- A Java `int[] entries` that is `null` is the empty sequence. The code never creates an empty
  non-null array.
- `getCharAt`'s `IllegalArgumentException` is the `Fault` value `CharOutOfRange(index, pos)`.
  It is carried through `Result`/`Option` results.

## The trie as written

The class comment promises a sorted result. The code as written does not deliver it, and the
model follows the code:

- A vertex created for a null link does not record the index being inserted
  (`SingleStringNotStored`).
- The `extend` branch neither places the index being inserted nor keeps the old `mid` subtrie.
- So indices can be lost. What is proved is "at most once", not "exactly once":
  - no index is stored twice;
  - at most one slot per input string is written;
  - the left/entries/mid/right traversal order;
  - binary-search-tree order at every depth;
  - the depth bound.
- For `["aa", "ab", "aa"]` the intended output `[0, 2, 1]` is not produced. Nothing is parked at
  all (`RepeatedPairNotStored`).
- For `["ab", "a"]` no exception is raised. The shorter string is parked at the root
  (`PrefixAfterLongerStored`).
- A string parked at its last character makes `extend` raise when a longer string following the
  same characters reaches its vertex (`ShorterStoredStringFaults`). A string parked earlier by the
  `limiter` does not (`LimiterParkedExtends`).

## Model

| member | source | states |
|---|---|---|
| TrieModel.CharAt | TernaryTrieSort.java:81-85 | a character is returned exactly when `pos` is below the string's length, and it is `list[index][pos]`; otherwise the fault names `index` and `pos` |
| TrieModel.Extension | TernaryTrieSort.java:125-131 | fails exactly when the parent's first entry is too short at `depth`; otherwise the new vertex has that string's character at `depth`, no links and the parent's entries in order, the parent's entries are cleared, and together they store what the parent stored |
| TrieModel.Insert | TernaryTrieSort.java:92-122 | a `put` that does not fault returns a vertex, never a null link |
| TrieModel.Build | TernaryTrieSort.java:67-76 | after inserting strings `0 .. n-1` every stored index is below `n` |
| TrieModel.InsertInRange | TernaryTrieSort.java:98-118 | when the inserted index is below `n` and every stored index is below `n`, `put` keeps every stored index below `n` |
| TrieModel.InsertStored | TernaryTrieSort.java:101-118 | the multiset of stored indices after `put` is contained in the old one plus `{index}`: `add` runs at most once and `extend` moves entries without copying them |
| TrieModel.InsertLevel | TernaryTrieSort.java:98-105 | a successful `put` read inside the string, and the characters at the entered depth grow by exactly the inserted string's character there |
| TrieModel.InsertOrdered | TernaryTrieSort.java:101-105 | `put` preserves the binary-search-tree order at every depth: smaller characters only under `left`, larger only under `right` |
| TrieModel.InsertOnePath | TernaryTrieSort.java:98-121 | a null link becomes a childless vertex without entries; an existing vertex keeps its character, and only one of `left`, `right` or `mid`/`entries` changes |
| TrieModel.InsertDepthSafe | TernaryTrieSort.java:95-118 | with `wordLen` equal to the inserted string's length, `getCharAt` never faults on that string; any fault comes from `extend` reading another string |
| TrieModel.InsertTotal | TernaryTrieSort.java:95-118 | when all strings have the same length, `put` at a depth within it never faults |
| TrieModel.InsertHeight | TernaryTrieSort.java:108-118 | a successful `put` read inside the string and leaves the trie at most `max(old height, wordLen - depth)` depths high |
| TrieModel.BuildFaultPersists | TernaryTrieSort.java:70-74 | an exception in one insertion is the outcome of the whole loop |
| TrieModel.BuildOrdered | TernaryTrieSort.java:70-74 | after the insertion loop the trie is in binary-search-tree order at every depth |
| TrieModel.BuildNoDuplicates | TernaryTrieSort.java:70-74 | after inserting `n` strings each stored index is below `n` and stored once, so at most `n` indices are stored |
| TrieModel.BuildTotal | TernaryTrieSort.java:70-74 | with all strings of one positive length the insertion loop raises nothing |
| TrieModel.BuildHeight | TernaryTrieSort.java:70-74 | with all strings of length `w` the trie spans at most `w` depths |
| TrieModel.InOrderStored | TernaryTrieSort.java:146-166 | the traversal emits every stored index exactly as often as it is stored |
| TrieModel.SortedIndicesDistinct | TernaryTrieSort.java:139-166 | the indices written into `sortedIndices` are distinct string indices, and there are at most `list.length` of them, so every write lands inside the array |
| TrieModel.SingleStringNotStored | TernaryTrieSort.java:98-99 | one string produces a root vertex that records no index |
| TrieModel.ShorterStoredStringFaults | TernaryTrieSort.java:108-131 | `["a", "a", "ab"]` makes `extend` read position 1 of string 1 and raise |
| TrieModel.LimiterParkedExtends | TernaryTrieSort.java:108-131 | `["aaa", "aaa", "aab", "aabb"]` raises nothing: `"aab"` is parked by the `limiter` at depth 1, and `extend` reads its character at depth 2 |
| TrieModel.RepeatedPairNotStored | TernaryTrieSort.java:98-118 | `["aa", "ab", "aa"]` parks no index, so `collect` emits nothing |
| TrieModel.PrefixAfterLongerStored | TernaryTrieSort.java:112-113 | `["ab", "a"]` raises nothing and parks index 1 at the root |
| TrieSorter.Node.constructor | TernaryTrieSort.java:33-35 | a new vertex has the given character, no links and no entries |
| TrieSorter.Node.Add | TernaryTrieSort.java:37-45 | `index` is appended after the existing entries, a null array becomes `[index]`, and the character and links are unchanged |
| TrieSorter.TernaryTrieSort.constructor | TernaryTrieSort.java:67-76 | if the insertion loop faults the fault is recorded; otherwise the trie is `Build(list)` and `sortedIndices` is its traversal followed by zeros, with `count` its length |
| TrieSorter.TernaryTrieSort.PutAll | TernaryTrieSort.java:70-74 | `put` of every index in turn, with `wordLen` set to that string's length, leaves exactly the trie `Build` describes, or stops at the fault `Build` reports |
| TrieSorter.TernaryTrieSort.Put | TernaryTrieSort.java:87-89 | `root` becomes the trie `Insert` gives for the old root at depth 0; on a fault the root is kept |
| TrieSorter.TernaryTrieSort.PutNode | TernaryTrieSort.java:92-122 | the subtrie becomes exactly what `Insert` computes, the same vertex is returned for a non-null node, and only fresh vertices join the footprint |
| TrieSorter.TernaryTrieSort.PutLeft | TernaryTrieSort.java:101-102 | the `left` subtrie becomes `Insert` of it at the same depth with `limiter` 0; the rest of the vertex is unchanged |
| TrieSorter.TernaryTrieSort.PutRight | TernaryTrieSort.java:104-105 | the `right` subtrie becomes `Insert` of it at the same depth with `limiter` 0; the rest of the vertex is unchanged |
| TrieSorter.TernaryTrieSort.ExtendMid | TernaryTrieSort.java:108-109 | the vertex becomes `Extension`'s parent with `mid` replaced by the fresh extension |
| TrieSorter.TernaryTrieSort.PutMid | TernaryTrieSort.java:117-118 | the `mid` subtrie becomes `Insert` of it one depth down with `limiter + 1`; the rest of the vertex is unchanged |
| TrieSorter.TernaryTrieSort.Extend | TernaryTrieSort.java:125-131 | fails exactly when the first entry's string is too short, leaving the parent as it was; otherwise it returns a fresh vertex with that character, the parent's entries in order and no links, and the parent's entries are null |
| TrieSorter.TernaryTrieSort.GetSorted | TernaryTrieSort.java:139-143 | `sortedIndices` is a fresh array of `list.length` slots that holds the traversal followed by zeros, and `count` is the traversal's length |
| TrieSorter.TernaryTrieSort.Collect | TernaryTrieSort.java:146-166 | the indices visited are the left subtrie's, then the vertex's entries in stored order, then the mid subtrie's and the right subtrie's |
| TrieSorter.TernaryTrieSort.CollectEntries | TernaryTrieSort.java:155-161 | the collected indices go into consecutive slots from `count` on, `count` advances by their number, and every other slot is unchanged |
| Detection.Reading | CircularArray.java:62-64 | `MOVING` is stored exactly when there is motion, `STATIONARY` otherwise, with the given time and network state |
| Detection.ExpectedRecent | CircularArray.java:82-87 | for `k` below `min(states, counter)`, slot `(counter-1-k) % states` holds the `k`-th newest observation |
| Detection.ExpectedUnwritten | CircularArray.java:38-50 | while fewer than `states` observations have been added, the slots from `counter` on keep their initial contents |
| Detection.ExpectedAdd | CircularArray.java:58-65 | adding an observation replaces slot `counter % states` and no other |
| Detection.NothingRecordedDetects | CircularArray.java:82-100 | with nothing added the loop does not run and the answer is true |
| Detection.MotionDetects | CircularArray.java:95 | a newest observation with motion makes the answer true |
| Detection.StaleQuietSettles | CircularArray.java:93-100 | a quiet newest observation older than the window makes the answer false |
| Detection.OldestForgotten | CircularArray.java:82-83 | an observation more than `states` places back has no effect on the answer |
| Detection.ScanStopsUnsettled | CircularArray.java:82-100 | if the scan meets an observation that is not quiet before crossing the threshold, or reaches the end of the window without crossing it, the answer is true |
| Detection.CircularArray.constructor | CircularArray.java:30-33 | a new buffer has `states` slots and an empty history |
| Detection.CircularArray.Initialise | CircularArray.java:38-50 | fresh arrays of `states` slots, each with time 0, detection `NO_ENTRY` and network state true; `counter` 0 and the history empty |
| Detection.CircularArray.Add | CircularArray.java:58-65 | only slot `counter % states` of the three arrays changes, to the new observation; `counter` advances by one and the history gains the observation |
| Detection.CircularArray.InteractionDetected | CircularArray.java:75-101 | read-only; false exactly when some observation among the newest `min(states, counter)` is older than `now - durationMinutes*60000` and it and every newer one are quiet (nonzero time, `STATIONARY`, network off or ignored) |
| Fifo.Node.constructor | IntegerQueue.java:15-17 | a new node holds the value and has no successor |
| Fifo.IntegerQueue.constructor | IntegerQueue.java:20-21 | a new queue is empty, with `size` 0 |
| Fifo.IntegerQueue.IsEmpty | IntegerQueue.java:27-29 | true exactly when the queue holds nothing, which is when `first` is null |
| Fifo.IntegerQueue.Enqueue | IntegerQueue.java:34-42 | the value is appended at the back, earlier contents are unchanged, and the chain still has `size` nodes from `first` to `last` |
| Fifo.IntegerQueue.Dequeue | IntegerQueue.java:48-53 | on a non-empty queue the front value is returned and removed, and the chain still has `size` nodes |
| Fifo.FirstInFirstOut | IntegerQueue.java:34-53 | after any run of calls, the dequeued values followed by the queued ones are exactly the enqueued values in enqueue order |
| Fifo.DequeuedPrefix | IntegerQueue.java:34-53 | the dequeued values are a prefix of the enqueued values |

## Left out

- Hydration.java is not part of this model. It is floating-point arithmetic with argument parsing and console output.
- Console output is left out, because it has no effect on the state:
  - the `println` loop of the TernaryTrieSort constructor;
  - the debug print in `extend`;
  - `Node.toString` and `main`;
  - `log` and `toString` of CircularArray.
- The static `sort` wrapper is left out. It only constructs the object and discards it.
- `putNext` is left out. It is assigned but never read.
- `Serializable` is left out. It adds no behaviour.
- `SystemClock.elapsedRealtime()` is not called. `Add` takes the reading as `time` and `InteractionDetected` takes it as `now`.
- Java's fixed-width integers are unbounded here, so wrap-around is not modelled. This covers:
  - `counter` of CircularArray, after 2^31 adds;
  - `size` of IntegerQueue;
  - the `long` arithmetic `now - durationMinutes * 60 * 1000`;
  - the trie's `int` depths.
- Detection.CircularArray.constructor: requires `states > 0`. In Java, `states == 0` fails with a division by zero in `add`, and a negative `states` fails at allocation.
- TrieSorter.TernaryTrieSort.constructor: the exception `getCharAt` raises would escape the Java constructor, and no object would exist. Here the constructor stops at the fault, records it in `fault` and does not collect.
- TrieSorter.TernaryTrieSort.PutNode: when it reports a fault, its contract says nothing about the vertices afterwards. In Java the exception happens before any link is reassigned. `Put` does state that `root` is kept.
- TrieSorter.TernaryTrieSort.Collect: returns the traversal as a sequence instead of writing `sortedIndices` during the walk.
  - `GetSorted` then writes that sequence slot by slot with `CollectEntries`, advancing `count` as the Java loop does.
  - The final array and `count` are the same. The interleaving of writes with the walk is not modelled.
- A `null` `list`, a `null` string in it, or a `dequeue` on an empty queue is not modelled as a call. Each is a `NullPointerException` in Java.
  - `Dequeue` requires a non-empty queue.
  - `Run` returns `None` for a `dequeue` on an empty queue.
- Java `char` is a UTF-16 code unit; here characters are Dafny `char` values compared by code point. Java's `length()` and `charAt` positions count UTF-16 code units, so for a string with characters outside the Basic Multilingual Plane the model's `wordLen`, depths and characters differ from the Java ones.
- No claim is made that the output is a sorted permutation of all indices. The code as written loses indices, as described above.
