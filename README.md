# threadsafe_list, sequential model

`threadsafe_list<T>` is a singly-linked list that many threads walk and change
at the same time, guarded by one mutex per node and hand-over-hand locking. This
project models what each operation does when one thread runs it alone. That is
the behaviour the locks protect.

- A list owns a valueless sentinel node `head`. A chain of nodes follows it.
  Each node holds one value and owns its successor.
- `push_front(v)` splices a new node in directly after the sentinel.
- `for_each(f)` walks the chain front to back and calls `f` on each value.
- `find_first_of(p)` walks the chain and returns the first value that satisfies
  `p`, or nothing.
- `remove_if(p)` walks the chain and unlinks every node whose value satisfies
  `p`. The other nodes stay, in their order.

Files:

- `threadsafe_list.dfy`, module `ThreadsafeList`. The classes `Node` and
  `ThreadsafeList`. The four operations are methods whose loops step a `curr`
  node along the chain and rewrite `next` fields in place, as the C++ does.
  `ThreadsafeList` keeps three ghost fields:
  - `Nodes`: the chain, sentinel first;
  - `Contents`: the values after the sentinel;
  - `Repr`: the list object and its nodes.

  `Valid()` says four things. The chain starts at `head`, which holds no value.
  Each node links to the next one and the last link is null. No node appears
  twice, so the chain is acyclic. The nodes after the sentinel hold `Contents`.
- `list_spec.dfy`, module `ListSpec`. What the operations mean on the sequence
  of values:
  - `Visit`: the state of a visitor after it has been called on each value;
  - `MatchIndex` and `FirstMatch`: the first match;
  - `Survivors`: what removal keeps.

  The lemmas here relate the operations to one another.
- `usage.dfy`, module `ListUsage`. A single-threaded client, proved from the
  method contracts alone. It pushes 3, 1, 4, 1, 5. A walk then sees 5, 1, 4, 1, 3.
  A search for 1 finds 1 and a search for 9 finds nothing. Removing every 1
  leaves 5, 4, 3. Removing with a predicate that matches nothing changes nothing.

`ForEach` and `FindFirstOf` have no `modifies` clause. Dafny therefore checks
that they change neither the chain nor any value, as the C++ promises by
walking through `const Node*` only. Every loop has the decreasing measure
`|Nodes| - k`. Here `k` is the position of `curr` in the chain. A step either
moves `curr` forward or shortens the chain by one node.

## Deviations from the source text

The C++ in `main.cpp` does not compile as written. The model follows the evident
intent at each of these places:

- main.cpp:22 allocates a `T` where a `Node` is meant. `PushFront` allocates a node.
- main.cpp:47 and main.cpp:52 return a pointer to a `Node` where a
  `shared_ptr<T>` to the value is meant. `FindFirstOf` returns the value.
- main.cpp:56 leaves the predicate parameter unnamed, yet main.cpp:61 calls it
  as `p`. `RemoveIf` names it `p`.
- main.cpp:57 declares `curr` as `const Node*`, yet main.cpp:62-63 write through
  it. `RemoveIf` writes `curr.next`.
- main.cpp:63 copies a `unique_ptr`. The intent is to move the unlinked node's
  successor into `curr->next`. `UnlinkNext` does exactly that.
- The `while` loop that begins at main.cpp:59 is never closed. `RemoveIf` ends
  the loop after the match / no-match branches of main.cpp:61-69.

## Model

| member | source | states |
|---|---|---|
| `ThreadsafeList.Node.Sentinel` | main.cpp:10 | the sentinel node holds no value and has no successor |
| `ThreadsafeList.Node.constructor` | main.cpp:11 | a value node holds exactly the given value and starts unlinked |
| `ThreadsafeList.ThreadsafeList.constructor` | main.cpp:14-15 | a new list is the sentinel alone: empty contents, a chain of one node, a fresh footprint |
| `ThreadsafeList.ThreadsafeList.PushFront` | main.cpp:20-25 | the contents become `[value] + old contents`; `head.next` is a fresh node whose successor is the old first node; the rest of the chain is the old chain; the list stays valid and only gains fresh objects |
| `ThreadsafeList.ThreadsafeList.ForEach` | main.cpp:26-37 | the visitor is called once per value, in chain order from `head.next` to the end: the sequence of call arguments equals the contents, and the visitor's final state is the in-order fold over them; nothing in the list changes |
| `ThreadsafeList.ThreadsafeList.FindFirstOf` | main.cpp:39-53 | returns the value at the lowest index that satisfies `p`, and nothing exactly when no value does; nothing in the list changes |
| `ThreadsafeList.ThreadsafeList.RemoveIf` | main.cpp:55-71 | the contents become the old contents without the values satisfying `p`, the survivors in their old order; the list stays valid with the sentinel first; the footprint only shrinks |
| `ThreadsafeList.ThreadsafeList.UnlinkNext` | main.cpp:62-64 | `curr.next` becomes the removed node's successor; that node leaves the chain, the contents and the footprint; every other link and value stays |
| `ThreadsafeList.RemovalStep` | main.cpp:59-69 | one step of the removal walk keeps the invariant "the chain before `curr` holds the survivors of the values tested so far, the chain after it holds the untested values": a match drops the value and leaves `curr` in place, a non-match moves `curr` on past the value |
| `ThreadsafeList.RemoveFromChain` | main.cpp:62-63 | dropping one node from a chain of distinct nodes keeps the chain distinct, drops exactly its value from the contents and exactly that node from the objects |
| `ThreadsafeList.LinkedAfterUnlink` | main.cpp:62-63 | once `curr` links past its successor and every other link is unchanged, the shortened chain is still linked and null-terminated |
| `ListSpec.VisitFront` | main.cpp:20-37 | after a push to the front, a walk first visits the pushed value and then the old contents |
| `ListSpec.VisitConcat` | main.cpp:30-36 | visiting a concatenation visits the first part and then carries on with the second |
| `ListSpec.RecordingVisitor` | main.cpp:30-36 | a visitor that records its arguments ends with exactly the contents, each value once and in order |
| `ListSpec.MatchIndex` | main.cpp:43-48 | the index returned is the lowest matching one: its value satisfies `p` when it is in range, and no earlier value does |
| `ListSpec.FirstMatch` | main.cpp:43-52 | nothing is found exactly when no value satisfies `p`; a found value satisfies `p` and is in the list |
| `ListSpec.FirstMatchIsLowest` | main.cpp:43-48 | any matching index with no match before it holds the value that the search returns |
| `ListSpec.FirstMatchFront` | main.cpp:20-25 | after a push to the front, a search returns the pushed value if it matches, and otherwise the first match in the old contents |
| `ListSpec.Survivors` | main.cpp:59-69 | no survivor satisfies `p`, and there are never more survivors than values |
| `ListSpec.SurvivorsMembership` | main.cpp:59-69 | a value survives exactly when it was present and does not satisfy `p` |
| `ListSpec.SurvivorsConcat` | main.cpp:59-69 | removal acts on each part of a concatenation on its own, so survivors keep their relative order |
| `ListSpec.SurvivorsFront` | main.cpp:20-25 | removal after a push to the front keeps the pushed value exactly when it does not match, ahead of the survivors of the old contents |
| `ListSpec.SurvivorsNoMatch` | main.cpp:59-69 | removal with a predicate that no value satisfies leaves the contents unchanged |
| `ListSpec.SurvivorsIdempotent` | main.cpp:59-69 | removing twice with the same predicate is the same as removing once |
| `ListSpec.SurvivorsCompose` | main.cpp:59-69 | two removals in a row remove exactly the values that satisfy either predicate |
| `ListSpec.SurvivorsPartition` | main.cpp:59-69 | the survivors and the removed values together are the original values as a multiset: nothing is lost or duplicated |
| `ListUsage.CountingVisitor` | main.cpp:30-36 | a visitor that counts its calls ends with the number of values |
| `ListUsage.SearchExample` | main.cpp:43-52 | searching 5, 1, 4, 1, 3 for 1 gives 1 and searching for 9 gives nothing |
| `ListUsage.RemovalExample` | main.cpp:59-69 | removing every 1 from 5, 1, 4, 1, 3 leaves 5, 4, 3 |
| `ListUsage.BuildThree` | main.cpp:20-25 | pushing 3, 1, 4 to the front of a new list stores 4, 1, 3 |
| `ListUsage.Build` | main.cpp:20-25 | pushing 1 and then 5 to the front of the list holding 4, 1, 3 stores 5, 1, 4, 1, 3 |
| `ListUsage.PushFindRemove` | main.cpp:20-71 | a walk of the built list visits 5, 1, 4, 1, 3 with 5 calls; the searches give 1 and nothing; removing every 1 then walking gives 5, 4, 3; a removal that matches nothing changes nothing |

## Left out

- The per-node `std::mutex`, `lock_guard` and `unique_lock`, and the
  hand-over-hand order of locking and unlocking (main.cpp:9, 21, 29-35, 42-50,
  58-68). Their purpose is thread safety, which a sequential model cannot state.
- Interleavings, linearizability, deadlock freedom and what concurrent threads
  see. These are concurrency properties.
- `shared_ptr` and `unique_ptr` reference counting, ownership transfer and the
  destructor that releases the chain (main.cpp:7-8, 16). Nodes are plain Dafny
  objects. `Repr` records which objects belong to the list, and an unlinked node
  leaves `Repr`.
- The deleted copy constructor and copy assignment (main.cpp:17-18). They are C++
  object-lifetime rules with no behaviour to verify.
- Template genericity over `Function` and `Predicate` (main.cpp:26, 39, 55). A
  predicate is a total Dafny function `T -> bool`.
- ForEach: the visitor is a pure state transformer `(S, T) -> S`. Arbitrary side
  effects cannot be modelled. That includes writing to a value through the
  non-const reference that `*next->data` yields at main.cpp:33. The method
  returns the visitor's final state and the sequence of arguments it was called
  with.
- FindFirstOf: returns a copy of the value. The C++ intends a `shared_ptr<T>`
  that aliases the node's data and stays valid after the node is removed.
  Aliasing is not modelled.
- Allocation failure in `push_front`. It is not recoverable in the source.
