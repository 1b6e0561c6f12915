# Singly linked list with an active-item cursor

This project models the list abstract data type of `src/list.h` and
`src/list.c`. The list is a chain of nodes, each holding a record
(`Data_t`) and a `next` pointer. `List_t` holds two pointers into that
chain: `first`, the head, and `active`, an independent cursor. Either can
be NULL.

There are eleven operations:

- `List_Init`.
- Inserting and deleting at the head.
- Inserting and deleting right after the active item.
- Reading the head record.
- Reading and overwriting the active record.
- Advancing the cursor.
- Testing whether there is an active item.

Every operation fails silently. An empty chain, a missing active item, a
missing successor, a NULL output buffer or a failed allocation leaves the
list as it was.

The project has four modules:

- `ListModel` (`list_model.dfy`) is the list as its users see it. A `State`
  is the sequence of records along the chain plus the cursor's position in
  it. There is one transition function per mutating operation. Each
  function's contract says what the operation does to the records and to the
  cursor.
- `LinkedList` (`linked_list.dfy`) is the pointer structure. Node memory is
  an arena, a map from addresses to `Node(data, next)` records:
  - a pointer is an `Option<Addr>`, with NULL as `None`;
  - `malloc` takes an address that is not in use;
  - `free` removes the address from the map.

  The class `List` has the C fields `first` and `active`, plus the node
  memory. Two ghost fields tie it to `ListModel`: `nodes`, the chain's
  addresses in order, and `Model`. The invariant `Valid()` (the predicate
  `Linked`) says four things:
  - node i of `nodes` is allocated, holds record i, and links to node i + 1;
  - the last node links to NULL;
  - `first` is node 0;
  - `active` is the node at the cursor.

  Every method keeps `Valid()`. Each mutator states its new `Model` as the
  matching `ListModel` function of the old one. It also states its exact
  effect on `first`, `active` and the node memory: which node is allocated
  or freed, and which `next` or `data` field is rewritten. Acyclicity and
  finiteness of the chain are proved from the invariant.
- `ListProperties` (`list_properties.dfy`) holds lemmas that relate
  several operations:
  - walking with `List_Succ`;
  - the tests' drain with `List_Delete_First`;
  - the driver's exit drain, which alternates `List_Succ` and
    `List_Delete_First`;
  - the insert/delete round trips.
- `ListScenarios` (`scenarios.dfy`) holds client methods.
  - Five of them replay the call sequences of `tests/tests.c`. The verifier
    proves each test's checks as assertions, using only the method
    contracts. Each starts from a freshly allocated list (the class's
    constructor, standing for `malloc(sizeof(List_t))`) followed by `Init`.
  - `ExitDrain` is the console driver's exit loop from `src/main.c`. Its
    loop invariants prove that it frees every node of the chain and leaves
    the list empty.

The source gives every record type to the list by value, and the list never
looks inside one. `Data_t` is therefore the type parameter `D`.

## Model

| member | source | states |
|---|---|---|
| ListModel.InsertFirst | src/list.c:29-42 | the result is one item longer; its head is `d`; the old items follow unchanged; the cursor designates the same record, one position further on |
| ListModel.First | src/list.c:44-48 | the items are unchanged; the cursor is at position 0, so the active record is the head, or there is none on an empty chain |
| ListModel.DeleteFirst | src/list.c:59-70 | on an empty chain the state is unchanged; otherwise exactly the head is dropped; an active head leaves no active item; any other active item keeps its record at one position less |
| ListModel.PostDelete | src/list.c:72-82 | without an active item or a successor nothing changes; otherwise exactly item c + 1 is removed and both sides are kept; the cursor and the active record are unchanged |
| ListModel.PostInsert | src/list.c:84-97 | without an active item nothing changes; otherwise `d` sits at position c + 1, the items before and after are kept, and the cursor and the active record are unchanged |
| ListModel.Actualize | src/list.c:110-117 | without an active item nothing changes; otherwise the active record becomes `d`, every other item and the cursor are kept, and the length is unchanged |
| ListModel.Succ | src/list.c:119-126 | the items are unchanged; the cursor moves to c + 1 when there is a successor; otherwise no item is active, including when none was |
| LinkedList.Differ | src/list.h:24-27 | two different positions of a chain hold different nodes |
| LinkedList.NoNodeTwice | src/list.h:24-38 | the chain from `first` is acyclic: no node occurs twice |
| LinkedList.Unique | src/list.h:24-38 | the node at a given position occurs nowhere else in the chain |
| LinkedList.FollowFrom | src/list.h:24-27 | following k `next` links from node j reaches node j + k, or NULL once that passes the tail |
| LinkedList.ChainEndsInNull | src/list.h:24-38 | the chain is finite: walking from `first` meets node k at step k, and NULL after exactly as many steps as there are items |
| LinkedList.Unused | src/list.c:33-35 | there is always an address above every address in use, so a successful allocation can return a fresh node |
| LinkedList.Prepend | src/list.c:37-40 | a fresh node that links to the old head, put in front, gives a chain one item longer |
| LinkedList.DropHead | src/list.c:66-69 | freeing the head node leaves the rest of the chain intact |
| LinkedList.SpliceIn | src/list.c:93-96 | a fresh node linked between node c and its successor gives the chain with the new item at position c + 1 |
| LinkedList.SpliceOut | src/list.c:79-81 | freeing node c + 1 and relinking node c to node c + 2 gives the chain without position c + 1 |
| LinkedList.Overwrite | src/list.c:116 | rewriting the record of node c gives the chain with only record c replaced |
| LinkedList.InsertFirstKeeps | src/list.c:29-42 | List_Insert_First keeps the list invariant, with `ListModel.InsertFirst` as the new model and the active node unchanged |
| LinkedList.DeleteFirstKeeps | src/list.c:59-70 | List_Delete_First keeps the list invariant: the second node becomes the head, and an active head is cleared |
| LinkedList.PostDeleteKeeps | src/list.c:72-82 | List_Post_Delete keeps the list invariant, with `ListModel.PostDelete` as the new model |
| LinkedList.PostInsertKeeps | src/list.c:84-97 | List_Post_Insert keeps the list invariant, with `ListModel.PostInsert` as the new model |
| LinkedList.ActualizeKeeps | src/list.c:110-117 | List_Actualize keeps the list invariant, with `ListModel.Actualize` as the new model |
| LinkedList.List.Init | src/list.c:22-27 | from any prior state, `first` and `active` are NULL and the list is empty; the nodes of an earlier chain are not freed |
| LinkedList.List.InsertFirst | src/list.c:29-42 | on success a fresh node holding `d` and linking to the old head becomes `first`; `active` is unchanged; after an allocation failure nothing changes |
| LinkedList.List.First | src/list.c:44-48 | `active` becomes `first` (NULL on an empty list); nothing else changes |
| LinkedList.List.CopyFirst | src/list.c:50-57 | returns true exactly when the buffer pointer is not NULL and the chain is not empty, and then the buffer holds the head record; otherwise the buffer is not written; the list is read only |
| LinkedList.List.DeleteFirst | src/list.c:59-70 | an empty list is left as it is; otherwise the head node is freed and its successor becomes `first`; an active head makes `active` NULL, and any other `active` is kept |
| LinkedList.List.PostDelete | src/list.c:72-82 | without an active node or a successor nothing changes; otherwise the successor is freed and the active node, with its record, now links to the node after it; `first` and `active` are kept |
| LinkedList.List.PostInsert | src/list.c:84-97 | without an active node, or after an allocation failure, nothing changes; otherwise a fresh node holding `d` links to the old successor and the active node links to it; `first` and `active` are kept |
| LinkedList.List.Copy | src/list.c:100-108 | returns true exactly when the buffer pointer is not NULL and there is an active item, and then the buffer holds the active record; otherwise the buffer is not written; the list is read only |
| LinkedList.List.Actualize | src/list.c:110-117 | without an active node nothing changes; otherwise only the active node's record is rewritten |
| LinkedList.List.Succ | src/list.c:119-126 | `active` becomes the active node's `next` (NULL past the tail); with no active node it stays NULL; nothing else changes |
| LinkedList.List.IsActive | src/list.c:128-130 | true exactly when `active` is not NULL, which is exactly when there is an active record |
| ListProperties.WalkFrom | src/list.c:119-126 | k advances from position c reach position c + k, or no active item once that passes the tail |
| ListProperties.OffTailStays | src/list.c:122-123 | once no item is active, any number of advances changes nothing |
| ListProperties.WalkFromFirst | tests/tests.c:244-254 | from List_First, advance k makes item k active for every k below the length n, and advance n leaves no active item |
| ListProperties.WalkPastTail | tests/tests.c:253-256 | from List_First, any number of advances at or beyond the length leaves no active item |
| ListProperties.DeleteFirstTimesDrops | src/list.c:59-70 | k head deletions remove exactly the first k items |
| ListProperties.DrainFromHead | tests/tests.c:257-259 | as many head deletions as there are items leave the empty list, and a further deletion is a no-op |
| ListProperties.InsertFirstThenDeleteFirst | src/list.c:29-70 | List_Delete_First undoes List_Insert_First, cursor included |
| ListProperties.PostInsertThenPostDelete | src/list.c:72-97 | List_Post_Delete undoes List_Post_Insert |
| ListProperties.PostInsertThenSucc | tests/tests.c:142-146 | after List_Post_Insert, the active record is unchanged and the next advance makes the inserted record active |
| ListProperties.ActualizeThenActualize | src/list.c:110-117 | of two overwrites of the active record, only the second survives |
| ListProperties.CursorDrainRounds | src/main.c:192-197 | with the head active, k rounds of List_Succ then List_Delete_First remove exactly the first k items; the head stays active until the last round, which leaves no active item |
| ListProperties.ExitDrainEmpties | src/main.c:192-197 | after List_First, the drain loop's List_Is_Active test holds for exactly as many rounds as there are items, and then the list is empty |
| ListScenarios.ExitDrain | src/main.c:192-197 | the exit drain loop on the pointer structure keeps the invariant, leaves the list empty, and frees exactly the nodes of the chain |

## Left out

- NULL `list` arguments. The eight operations that take a `List_t*` return at once when it is NULL. Dafny references are not null, so these no-op branches are not modelled. The three by-value readers (`List_Copy_First`, `List_Copy`, `List_Is_Active`) have no such branch. The NULL check on the `data` pointer of the two copiers is modelled.
- `myMalloc` and `myFree` belong to an allocator that is not part of this model. A failed allocation is the parameter `allocOk`. A successful one returns an address that is not in the arena, chosen by the model. A free removes the address from the arena.
- Node memory is a map owned by one list value, not a shared heap. Two `List_t` values that share one chain, as a by-value copy does in the readers and in the driver, are therefore not modelled. The three by-value readers only read, so the difference does not show for them. The console driver's rendering, which advances a by-value copy's cursor, is not modelled.
- `Data_t` and its floating-point fields are a type parameter. The `memcmp` byte comparisons of the tests are modelled as value equality.
- Most of `src/main.c` (the console driver's menu, command loop and rendering) and all of `src/data.c` (terminal input and output) are I/O and are not part of this model. Only the exit drain of `src/main.c:192-197` is modelled, as `ListScenarios.ExitDrain`. `ListProperties.DrainFromHead` states the different drain used by the tests, which repeats List_Delete_First while `first` is not NULL.
- `List_Init` leaks the nodes of an earlier chain. The model keeps them in the arena, where nothing reaches them. No lemma states the leak.
