# ListPiece: the piece list of a graph-constrained FPOP change-point engine

The engine stores each state's optimal cost as a piecewise function: a
singly linked list of cost pieces. `ListPiece` is that list. It has a
sentinel `head` and three cursors:

- `lastActivePiece`: where the next piece is appended;
- `tail`: the last node;
- `currentPiece`: the traversal cursor.

It also keeps a running counter, `lengthList`. This project models the
list's operations, which are implemented in `src/ListPiece.cpp`, and
proves what they do to the links, the cursors and the counter.

How the model is built:

- **Heap as an arena.** The pieces live in the slots of an array `arena`.
  A `Piece*` is a slot index and `NULL` is `Null` (`-1`). A piece is
  `Piece(data, nxt)`. Its cost data is a type parameter `T`, because the
  list never looks inside it.
- **Ghost chain.** The ghost field `chain` lists, in order, the nodes
  reachable from `head`. The object invariant `Valid()` says that the
  arena links `chain` from `head` to a `Null` link without repeating a
  node, that `tail` is the last node of `chain`, and that `currentPiece`
  is `Null` or the node at the ghost position `cursor`.
- **Counter.** `lengthList` is an `unsigned int`, taken here to be 32 bits
  wide. `++` and `--` wrap modulo 2^32 (module `Unsigned`). The wrap is
  reachable: deleting twice after one append decrements zero.
- **`addPiece`.** Both branches are modelled as written. When
  `lastActivePiece` has no successor, `newP` is linked behind it and
  becomes the tail and the last active piece. Otherwise the code steps
  `lastActivePiece` forward and then overwrites it with `newP`. So `newP`
  is left unlinked and no link or tail changes. If the append branch runs
  later, while `lastActivePiece` is such an unlinked slot, `newP` is
  linked behind that slot and not behind the chain:
  - the chain from `head` stays as it was;
  - `tail` leaves the chain.

  The contract states exactly this. `addPiece` and
  `initializeCurrentPiece` need only a well linked chain, so they are
  modelled in that state too; `addPiece` keeps the object invariant in
  every other case.
- **`deleteNxtPieceAndMove`.** The code performs four pointer writes. The
  model proves that they unlink the node after the cursor and re-attach it
  behind the tail as the new tail. The node is recycled, not freed. The
  other nodes keep their order and the cursor does not move, despite the
  member's name. When the removed node already is the tail, the writes
  alias each other and leave every link as it was.
- **The traversal `addPointAndPenalty(pt, edge)`.** The loop walks from
  `head`, the sentinel included, to `Null`, calling `move()` at each step.
  Each node absorbs the point once, in chain order. The per-piece update
  `Piece::addPointAndPenalty` is not part of this file, so it is a
  function parameter `update`. `edge` is accepted and has no effect, as in
  the code.
- **Caller obligations.** The code dereferences `currentPiece` in
  `move()`, and `currentPiece->nxt` in `deleteNxtPieceAndMove()`. Those
  operations therefore require the pointer they dereference to be
  non-`Null`.

## Model

| member | source | states |
|---|---|---|
| PieceList.ListPiece.constructor | src/ListPiece.cpp:7-15 | the new list is the sentinel alone with a `Null` link; the counter is 0; `lastActivePiece`, `tail` and `currentPiece` all designate the sentinel; the invariant holds |
| PieceList.ListPiece.AddPiece | src/ListPiece.cpp:17-33 | from any well linked state: the counter goes up by one (mod 2^32), `lastActivePiece` becomes `newP` and the chain stays well linked on both branches. Append branch: `newP` gets a `Null` link and becomes the tail, and the old last active piece links to it. When that was the chain's last node, `newP` joins the end of the chain. When it was an unlinked slot, the chain is unchanged and `tail` is off it. Other branch: links, tail and chain are unchanged. The object invariant is kept in all but the unlinked-slot case. |
| PieceList.ListPiece.Move | src/ListPiece.cpp:35-38 | the cursor becomes its piece's `nxt`, i.e. the next node of the chain; it becomes `Null` exactly when it stood on the tail; the invariant is kept |
| PieceList.ListPiece.GetLength | src/ListPiece.cpp:40-43 | returns the counter and changes nothing |
| PieceList.ListPiece.InitializeCurrentPiece | src/ListPiece.cpp:55-58 | in any state the cursor goes back to the sentinel, which is position 0 of a well linked chain; the invariant is kept |
| PieceList.ListPiece.SetLink | src/ListPiece.cpp:22-23 | one pointer write `p->nxt = v`, also each write at lines 61-64: slot `p`'s link becomes `v`; its data and every other slot are unchanged |
| PieceList.ListPiece.AbsorbPoint | src/ListPiece.cpp:80 | `currentPiece->addPointAndPenalty(pt)`: slot `p`'s data absorbs the point; every other slot is unchanged |
| PieceList.ListPiece.DeleteNxtPieceAndMove | src/ListPiece.cpp:60-66 | the new chain is the old one with the node after the cursor moved to the end; the arena is relinked accordingly and that node is the new tail; the cursor and the last active piece stay; the counter goes down by one (mod 2^32); the invariant is kept |
| PieceList.ListPiece.AddPointAndPenalty | src/ListPiece.cpp:75-84 | the loop visits exactly the chain's nodes, in order, sentinel included; it ends with the cursor at `Null`; the arena becomes every chain node absorbing the point in turn; links and invariant are kept |
| Chain.TraversalAbsorbsOnce | src/ListPiece.cpp:77-82 | after the traversal, each slot on the chain has absorbed the point exactly once and every slot off the chain is unchanged |
| Chain.AbsorbedAt | src/ListPiece.cpp:77-82 | after the first `i` visits, a slot has absorbed the point once if it is among the first `i` nodes and is untouched otherwise |
| Chain.AbsorbStep | src/ListPiece.cpp:79-81 | one loop iteration: the node at the cursor's position absorbs the point, the arena still links the same chain, and the visited prefix grows by that node |
| Chain.Absorb | src/ListPiece.cpp:80 | absorbing a point changes a piece's data and never its link |
| Chain.AbsorbKeepsChain | src/ListPiece.cpp:80 | changing a piece's data leaves every chain of the arena intact |
| Chain.Follow | src/ListPiece.cpp:77-82 | following `nxt` from a slot for at most `fuel` steps visits valid slots and starts at that slot |
| Chain.FollowChain | src/ListPiece.cpp:77-82 | following `nxt` from the first node of a chain visits exactly that chain, in order, and then stops at `Null` |
| Chain.ChainUnique | src/ListPiece.cpp:77-82 | the links determine the chain: two chains of one arena that start at the same slot are equal |
| Chain.NullOnlyAtEnd | src/ListPiece.cpp:19 | a chain node's `nxt` is `Null` if and only if it is the last node, the test the append branch relies on |
| Chain.LinkBehind | src/ListPiece.cpp:19-24 | the append branch's two writes: behind the chain's last node they extend the chain by `newP`; behind a slot off the chain they leave the chain unchanged |
| Chain.AppendChain | src/ListPiece.cpp:21-24 | giving an off-chain slot a `Null` link and linking the tail to it yields the chain extended by that slot |
| Chain.FrameChain | src/ListPiece.cpp:22-23 | writing the link of a slot off the chain leaves the chain intact |
| Chain.Recycle | src/ListPiece.cpp:60-64 | moving the node after position `k` to the end keeps the length and puts that node last; when it already is last, the chain is unchanged |
| Chain.RecycleKeepsNodes | src/ListPiece.cpp:60-64 | the recycled chain has the same nodes (as a multiset), keeps the prefix up to the cursor, and keeps the rest in order |
| Chain.RecycleAt | src/ListPiece.cpp:60-64 | position by position: nodes up to the cursor stay, later ones shift down by one, and the removed node comes last |
| Chain.DeleteSteps | src/ListPiece.cpp:61-64 | the four literal writes, each reading the links left by the previous one, equal the relinking, including the aliased case where the removed node is the tail |
| Chain.RelinkChain | src/ListPiece.cpp:60-64 | the relinked arena links the recycled chain from the same first node to a `Null` link |
| Unsigned.Inc | src/ListPiece.cpp:32 | `lengthList++` adds one below 2^32 - 1 and wraps to 0 at 2^32 - 1 |
| Unsigned.Dec | src/ListPiece.cpp:65 | `lengthList--` subtracts one above 0 and wraps to 2^32 - 1 at 0 |
| Unsigned.IncDecInverse | src/ListPiece.cpp:65 | decrementing undoes incrementing and vice versa, also across the wrap |

## Left out

- The destructor `~ListPiece` (src/ListPiece.cpp:45-53) releases memory. The arena model never frees a slot, so there is nothing to state.
- The body of `Piece::addPointAndPenalty` and the contents of a piece's cost function are in the piece class. That class is not part of this model. The update is the parameter `update` and the data is the type parameter `T`.
- `edgeConstraintLP` (src/ListPiece.cpp:89-91) has an empty body in this file and is not modelled.
- The includes and `<iostream>` (src/ListPiece.cpp:1-4) have no behaviour.
- The header `ListPiece.h` is not part of this model. The field types are read from the code: the counter is `unsigned int`, as `getLength` returns.
- The rest of the engine is not modelled: the transition operators, merge, pruning, backtracking and the graph.
- Allocation is not modelled. `new Piece()` in the constructor is slot 0 of a fixed-size arena, and the caller of `addPiece` hands over a slot it has filled.
- PieceList.ListPiece.AddPiece requires `newP` to be off the chain, as a freshly allocated piece is. Linking a node that is already on the chain would close a cycle; that is not modelled.
- PieceList.ListPiece.Move, PieceList.ListPiece.DeleteNxtPieceAndMove and PieceList.ListPiece.AddPointAndPenalty require `Valid()`. Their behaviour after an append from an unlinked slot has taken `tail` off the chain is not modelled.
- The order of visits is recorded in a ghost out-parameter `visited`. The position of `currentPiece` is kept in the ghost field `cursor`. Neither exists in the code.
