# Data-Structures-Golang: stacks, linked lists and matrix rotation in Dafny

This project models three parts of the Data-Structures-Golang repository and
proves what each of them promises.

- **The min-tracking stack** (`pkg/stacks/stack.go`). A singly linked LIFO
  whose nodes point at the node below. It keeps `top`, a `length` counter and
  a second linked list, `min`, of running minima. `Push` and `Pop` keep
  `min` up to date through `calcMin` and `pushMin`. On top of them sit
  `ToArray`, `AppendArray`, `Reverse`, `AppendReverse`, `Append` and the two
  sorts. `SortN` uses only push, pop and top on the stack and on one
  auxiliary stack. `Sort` goes through a slice and `sort.Ints`.
  - The model is the class `Stacks.Stack`, with the same three fields.
  - Nodes are `Stacks.Node` objects whose fields never change. Each carries
    ghost records of the values beneath it.
  - `Stack.Valid()` is the stack invariant:
    - `length` counts the nodes;
    - the `min` list holds exactly the running minima (`StackSpec.MinRecords`)
      of the values, bottom to top.
  - Every method is proved against `Stack.Contents()`, the values bottom to
    top in the order `ToArray` reports them.
- **The duplicate removal and the k-th-to-last walk** (`pkg/linkedlists/linkedlist.go`).
  - The Go `container/list` is the sequence field `LinkedLists.LinkedList.list`.
    Unlinking an element removes it from the sequence.
  - A cursor walking forward from the front is an index. A cursor walking
    backward from the back is its distance from the back.
  - `DeleteDuplicates` keeps the first copy of each value, with the same
    result from both branches. Both branches are proved equal to
    `ListSpec.DedupFirst`:
    - the nested scan without extra storage;
    - the hash-set scan.
  - `DeleteDuplicatesBack` keeps the last copy, and both its branches are
    proved equal to `ListSpec.DedupLast`.
  - Each of the two is also proved equal to an independent reference
    definition (`KeepFirst`, `KeepLast`), duplicate-free and idempotent.
- **The square matrix and its in-place clockwise rotation** (`pkg/arraysandstrings/rotate_matrix.go`).
  - The `[][]int` is the sequence field `Matrices.Matrix.mat`. Each cell write
    reassigns the field with one row updated.
  - `RotateMatrixCW` keeps the source's two loops (layers, then steps within
    a layer) and its four writes through a `top` temporary per step.
  - It is proved to:
    - end at `RotatedCW` of the starting matrix;
    - keep the multiset of the cells.

Only `int` values are modelled, as unbounded `int`; no operation does
arithmetic on them, so no width matters.

## Model

| member | source | states |
|---|---|---|
| Stacks.Stack.constructor | pkg/stacks/stack.go:52-58 | NewStack: an empty stack that satisfies the stack invariant |
| Stacks.Stack.Top | pkg/stacks/stack.go:61-66 | nil (None) exactly when the stack is empty, otherwise the most recently pushed value still in the stack |
| Stacks.Stack.Len | pkg/stacks/stack.go:69-71 | the length equals the number of values in the stack, and is 0 exactly when `top` is nil |
| Stacks.Stack.Push | pkg/stacks/stack.go:74-83 | the value goes on top, the contents gain it at the end, Len grows by one, the value is returned, and the min list is kept |
| Stacks.Stack.Pop | pkg/stacks/stack.go:86-100 | on a non-empty stack (the source panics otherwise): returns the old top, drops it from the end of the contents, Len shrinks by one, and the min list is kept |
| Stacks.Stack.CalcMin | pkg/stacks/stack.go:155-204 | the min list after a push or pop of `value` is `MinUpdate` of the old one: start it when empty, drop its head when popping a value equal to it, add a value that is `<=` its head |
| Stacks.Stack.PushMin | pkg/stacks/stack.go:207-217 | the value becomes the new head of the min list, which is otherwise unchanged |
| Stacks.Stack.MinListIsRunningMinima | pkg/stacks/stack.go:155-217 | under the stack invariant, the min list equals the running minima of the values, bottom to top |
| Stacks.Stack.MinListInvariant | pkg/stacks/stack.go:155-217 | the min list is empty exactly when the stack is; its head is a value of the stack and is no larger than any of them; read from the head it is non-decreasing |
| Stacks.Stack.MinValue | pkg/stacks/stack.go:155-175 | the head of the min list of a non-empty stack is one of its values and the smallest of them |
| Stacks.TrackedChainMins | pkg/stacks/stack.go:74-83 | along a well-formed main list, the min list recorded at each node equals the running minima of the values up to it |
| Stacks.Stack.ToArray | pkg/stacks/stack.go:103-111 | the array has Len entries, the values bottom to top, the top at the last index |
| Stacks.Stack.AppendArray | pkg/stacks/stack.go:114-122 | pushes the slice from index 0 up: the contents become the old contents followed by the slice |
| Stacks.ArrayRoundTrip | pkg/stacks/stack.go:114-122 | a new stack filled by AppendArray from another stack's ToArray holds exactly that stack's values |
| Stacks.Stack.PushFrom | pkg/stacks/stack.go:142-145 | walking a list from its top node down and pushing each value appends the list's values reversed |
| Stacks.Stack.Reverse | pkg/stacks/stack.go:125-132 | a fresh stack whose contents are this stack's reversed; this stack is not modified |
| Stacks.ReverseTwice | pkg/stacks/stack.go:125-132 | reversing a stack twice gives a stack with the original contents |
| Stacks.Stack.AppendReverse | pkg/stacks/stack.go:135-147 | an error exactly when the receiver or the argument is nil, and then nothing changes; otherwise the receiver gains the argument's values from its top down; a distinct argument is left unchanged |
| Stacks.Stack.Append | pkg/stacks/stack.go:150-152 | an error exactly when the receiver is nil; otherwise the receiver gains the argument's values keeping their order; a distinct argument is left unchanged |
| Stacks.Stack.SortN | pkg/stacks/stack.go:224-254 | afterwards the contents are a non-decreasing permutation of the original, smallest at the bottom and largest on top |
| Stacks.Stack.InsertAllInto | pkg/stacks/stack.go:234-250 | the main loop empties the stack into the auxiliary one and keeps the auxiliary stack non-decreasing from its top down throughout, without losing or gaining values |
| Stacks.Stack.InsertTopInto | pkg/stacks/stack.go:239-249 | one round removes the top value and inserts it into the auxiliary stack, keeping it ordered |
| Stacks.Stack.ParkSmaller | pkg/stacks/stack.go:240-244 | moves exactly the auxiliary entries smaller than the value from its top onto the stack, counts them, and stops at an entry no smaller or at the bottom |
| Stacks.Stack.MoveBack | pkg/stacks/stack.go:246-248 | moves the `count` parked values back onto the auxiliary stack in their original order |
| Stacks.Stack.PourFrom | pkg/stacks/stack.go:251-253 | empties the auxiliary stack onto the stack, so its order is reversed |
| Stacks.Stack.Sort | pkg/stacks/stack.go:258-282 | nil with no change on an empty stack; otherwise returns the receiver itself, whose contents are a non-decreasing permutation of the original |
| StackSpec.ReverseInvolutive | pkg/stacks/stack.go:150-152 | reversing twice gives the original sequence back, which is why Append keeps the order |
| StackSpec.ReverseMultiset | pkg/stacks/stack.go:251-253 | reversal keeps the multiset of the values |
| StackSpec.ReverseNonIncreasing | pkg/stacks/stack.go:251-253 | a stack non-decreasing from its top down, poured onto an empty one, ends non-decreasing from the bottom up |
| StackSpec.ReverseAt | pkg/stacks/stack.go:142-145 | element `i` of the reversal is element `n-1-i` of the original |
| StackSpec.InsertBelowSmaller | pkg/stacks/stack.go:241-248 | putting the value below the smaller entries and above the rest keeps the auxiliary stack ordered |
| StackSpec.MinRecordsHeadIsMinimum | pkg/stacks/stack.go:155-217 | the running minima are empty exactly for an empty stack, and the last record is a value of the stack no larger than any |
| StackSpec.MinRecordsOrdered | pkg/stacks/stack.go:167-175 | the running minima, read from the head, are non-decreasing |
| StackSpec.PushMinRecords | pkg/stacks/stack.go:155-175 | calcMin after a push turns the running minima of the old values into those of the new ones |
| StackSpec.PopMinRecords | pkg/stacks/stack.go:167-170 | calcMin after a pop turns the running minima of the old values into those of the remaining ones |
| StackSpec.PopRecord | pkg/stacks/stack.go:167-170 | popping a value undoes what pushing it recorded |
| StackSpec.InsertSorted | pkg/stacks/stack.go:269 | inserting into a sorted sequence keeps it sorted and adds exactly the value |
| StackSpec.SortIntsSorted | pkg/stacks/stack.go:269 | the sort that `sort.Ints` performs yields a non-decreasing permutation |
| LinkedLists.LinkedList.constructor | pkg/linkedlists/linkedlist.go:39-43 | NewLinkedList: an empty list |
| LinkedLists.LinkedList.Remove | pkg/linkedlists/linkedlist.go:104 | unlinking an element removes exactly that position, keeping the order of the rest |
| LinkedLists.LinkedList.CreateListFromArray | pkg/linkedlists/linkedlist.go:81-90 | pushes the slice at the back in index order and returns the same list |
| LinkedLists.ArrayRoundTrip | pkg/linkedlists/linkedlist.go:81-90 | a new list built from a slice gives that slice back through ToArray |
| LinkedLists.LinkedList.DeleteDuplicates | pkg/linkedlists/linkedlist.go:93-127 | for either flag value, the list becomes DedupFirst of the old one, so both branches agree |
| LinkedLists.LinkedList.DeleteDuplicatesInPlace | pkg/linkedlists/linkedlist.go:98-113 | the branch without extra storage leaves DedupFirst of the old list |
| LinkedLists.LinkedList.RemoveLaterCopies | pkg/linkedlists/linkedlist.go:101-108 | one inner scan removes every copy of the current value after it and keeps everything else in order |
| LinkedLists.LinkedList.DeleteDuplicatesHashed | pkg/linkedlists/linkedlist.go:114-126 | the hash-set branch leaves DedupFirst of the old list |
| LinkedLists.LinkedList.DeleteDuplicatesBack | pkg/linkedlists/linkedlist.go:130-164 | for either flag value, the list becomes DedupLast of the old one, so both branches agree |
| LinkedLists.LinkedList.DeleteDuplicatesBackInPlace | pkg/linkedlists/linkedlist.go:135-150 | the branch without extra storage leaves DedupLast of the old list |
| LinkedLists.LinkedList.RemoveEarlierCopies | pkg/linkedlists/linkedlist.go:138-145 | one inner scan removes every copy of the current value before it and keeps everything else in order |
| LinkedLists.LinkedList.DeleteDuplicatesBackHashed | pkg/linkedlists/linkedlist.go:151-163 | the hash-set branch leaves DedupLast of the old list |
| LinkedLists.LinkedList.KthToLast | pkg/linkedlists/linkedlist.go:172-193 | nil exactly for an empty list, a negative k or k past the front; otherwise the element k places from the back, the back itself for k 0 |
| LinkedLists.LinkedList.ToArray | pkg/linkedlists/linkedlist.go:206-217 | the values front to back, and an empty result for a nil list |
| LinkedLists.ScanFrontDone | pkg/linkedlists/linkedlist.go:109 | after one inner scan, the expected result splits into the kept prefix and DedupFirst of the rest |
| LinkedLists.ScanBackDone | pkg/linkedlists/linkedlist.go:146 | after one backward inner scan, the expected result splits into DedupLast of the rest and the kept suffix |
| ListSpec.DedupFirstKeepsFirst | pkg/linkedlists/linkedlist.go:93-127 | DedupFirst equals the reference definition: a value is kept exactly where it does not occur earlier |
| ListSpec.DedupFirstDistinct | pkg/linkedlists/linkedlist.go:93-127 | DedupFirst leaves no two equal values and keeps every value that occurs |
| ListSpec.DedupFirstOfDistinct | pkg/linkedlists/linkedlist.go:93-127 | on a list with no duplicates DeleteDuplicates changes nothing |
| ListSpec.DedupFirstIdempotent | pkg/linkedlists/linkedlist.go:93-127 | DeleteDuplicates twice is DeleteDuplicates once |
| ListSpec.DedupFirstSnoc | pkg/linkedlists/linkedlist.go:93-127 | a value added at the back survives exactly when it does not occur earlier |
| ListSpec.DedupFirstKeepNew | pkg/linkedlists/linkedlist.go:121-124 | a value not in the hash set is kept and joins it |
| ListSpec.DedupLastKeepsLast | pkg/linkedlists/linkedlist.go:130-164 | DedupLast equals the reference definition: a value is kept exactly where it does not occur later |
| ListSpec.DedupLastDistinct | pkg/linkedlists/linkedlist.go:130-164 | DedupLast leaves no two equal values and keeps every value that occurs |
| ListSpec.DedupLastOfDistinct | pkg/linkedlists/linkedlist.go:130-164 | on a list with no duplicates DeleteDuplicatesBack changes nothing |
| ListSpec.DedupLastIdempotent | pkg/linkedlists/linkedlist.go:130-164 | DeleteDuplicatesBack twice is DeleteDuplicatesBack once |
| ListSpec.DedupLastCons | pkg/linkedlists/linkedlist.go:130-164 | a value added at the front survives exactly when it does not occur later |
| ListSpec.DedupLastKeepNew | pkg/linkedlists/linkedlist.go:158-161 | a value not in the hash set is kept and joins it |
| ListSpec.WithoutMembers | pkg/linkedlists/linkedlist.go:119-120 | removing the values of a set leaves exactly the other values |
| Matrices.NewMatrix | pkg/arraysandstrings/rotate_matrix.go:14-22 | an error exactly when the matrix is non-empty and its first row is not as long as there are rows; otherwise a new matrix holding the rows |
| Matrices.NewMatrixAcceptsUnrotatable | pkg/arraysandstrings/rotate_matrix.go:15-20 | a matrix whose first row fits but whose second row is short is accepted although it is not square and cannot be rotated |
| Matrices.NewSquareMatrix | pkg/arraysandstrings/rotate_matrix.go:14-22 | an error exactly when some row is not as long as there are rows; every matrix it returns can be rotated |
| Matrices.Matrix.constructor | pkg/arraysandstrings/rotate_matrix.go:21 | the matrix holds the given rows |
| Matrices.Matrix.RotateMatrixCW | pkg/arraysandstrings/rotate_matrix.go:25-40 | the matrix becomes its clockwise quarter turn, and its cells keep their multiset |
| Matrices.Matrix.RotateRing | pkg/arraysandstrings/rotate_matrix.go:32-38 | the inner loop moves every cell of ring `start` to its rotated place and keeps the rest |
| Matrices.Matrix.RotateStep | pkg/arraysandstrings/rotate_matrix.go:33-37 | the four writes of one step: top from left, left from bottom, bottom from right, right from the saved top |
| Matrices.RotatedCW | pkg/arraysandstrings/rotate_matrix.go:32-37 | rotation keeps the row count and every row length |
| Matrices.QuarterTurn | pkg/arraysandstrings/rotate_matrix.go:25-40 | after the rotation every cell of the square part satisfies `new[i][j] == old[n-1-j][i]`, and cells past column n-1 stay |
| Matrices.HalfTurn | pkg/arraysandstrings/rotate_matrix.go:25-40 | two rotations read the matrix from the bottom right corner |
| Matrices.RotateFourTimes | pkg/arraysandstrings/rotate_matrix.go:25-40 | rotating four times restores the original matrix |
| Matrices.RotatedSquare | pkg/arraysandstrings/rotate_matrix.go:25-40 | a square matrix can be rotated and stays square |
| Matrices.RotationFixedPoints | pkg/arraysandstrings/rotate_matrix.go:27-31 | the centre cell of an odd-sized matrix is never moved, and a 0x0 or 1x1 matrix is unchanged |
| Matrices.AssignMultiset | pkg/arraysandstrings/rotate_matrix.go:34 | one cell write replaces one value of the multiset of cells by another |
| Matrices.AssignCycle | pkg/arraysandstrings/rotate_matrix.go:33-37 | four writes that pass values around a cycle keep the multiset of cells |
| Matrices.FourCycle | pkg/arraysandstrings/rotate_matrix.go:33-37 | four multiset replacements around a cycle cancel out |
| Matrices.CycleCells | pkg/arraysandstrings/rotate_matrix.go:33-37 | after one step each of its four cells holds the value of the cell before it in the cycle and all others are unchanged |
| Matrices.CycleStep | pkg/arraysandstrings/rotate_matrix.go:33-37 | one step puts its four cells in their rotated places and keeps the multiset |
| Matrices.RingCell | pkg/arraysandstrings/rotate_matrix.go:32 | each step of a ring writes exactly its four cells, none of them written before |
| Matrices.RingComplete | pkg/arraysandstrings/rotate_matrix.go:32-38 | after the last step of ring `start` the whole ring is in place |
| Matrices.ProgressComplete | pkg/arraysandstrings/rotate_matrix.go:27-31 | once the loop stops at the middle, every cell is in its rotated place |

## Left out

- Values other than `int`:
  - the `int8`–`int64` and `float32`/`float64` cases of `calcMin`;
  - the `float64` branch of `Sort`;
  - the `default` cases that return early or skip recording.

  Only the `int` path is modelled. On it the type switches always take the
  `int` case, so they are not represented.
- The `value == nil` branch of `calcMin`. An `int` is never nil, so on the
  int path that branch cannot be reached.
- Reflection: `AppendArray` and `CreateListFromArray` take a slice of any
  type, modelled as `seq<int>`. A non-slice argument is not modelled. The
  source ignores it, except that a bare `nil` panics in
  `reflect.TypeOf(nil).Kind()`.
- Linked-list values other than `int`: the source stores `interface{}` and
  compares with Go `==`, also as `map[interface{}]bool` keys. Mixed dynamic
  types, NaN and uncomparable values, which panic in `==` and as map keys,
  are not modelled.
- `sort.Ints` is modelled by what it promises, a sorted permutation
  (`StackSpec.SortInts`), not by its algorithm.
- `container/list` internals: the list is its sequence of values. Element
  identity is not modelled; `KthToLast` returns the position of the element.
- `Stacks.Stack.Pop`: the panic on an empty stack (`StackTopIsNilException`)
  is a precondition.
- `Stacks.Stack.AppendReverse` and `Stacks.Stack.Append`: the error is a
  value of `Stacks.StructIsNil`. The exception type lives in
  `pkg/utils`, which is not part of this model.
- `Matrices.NewMatrix` and `Matrices.NewSquareMatrix`: the error message is
  the source's text without its `, received: %v` suffix, because the model
  does not render a matrix as text.
- `Stacks.Stack.Append`: a nil argument panics inside `Reverse` in the
  source. Here the argument is non-nil.
- `Matrices.Matrix.RotateMatrixCW`: requires every row to be at least as
  long as there are rows (`Rotatable`), because the source indexes column
  n-1 of every row and panics on a shorter one. Rows longer than that keep
  their extra cells, as in the source.
- Aliasing between Go slices, in three forms:
  - two matrices or lists sharing rows or nodes;
  - rows that alias each other inside one matrix: with `row := []int{1, 2}`,
    `NewMatrix([][]int{row, row})` is accepted, and the in-place rotation
    then gives `[[2, 1], [2, 1]]` rather than `RotatedCW`'s `[[1, 1], [2, 2]]`;
  - `NewMatrix` keeps the caller's slice, so `RotateMatrixCW` also changes
    the caller's data.

  Each object here owns its sequence, so none of these is modelled.
- `GetList`, `SetList` and `Replace` (plain field accessors), the `Assert*`
  test helpers, and the test files.
- The time and space complexity claims in the comments, and the "one
  auxiliary stack" restriction beyond mirroring it in `SortN`'s structure.

## Findings

| source | as written | input that shows it | evidently intended | confidence | as-written member | corrected member |
|---|---|---|---|---|---|---|
| pkg/arraysandstrings/rotate_matrix.go:15-20 | `NewMatrix` compares only the first row's length with the row count | `[[1, 2], [3]]` is accepted; `RotateMatrixCW` on it then indexes past the end of the second row | reject every matrix that is not square, as the error message says ("expected square matrix") | not executed | Matrices.NewMatrixAcceptsUnrotatable | Matrices.NewSquareMatrix |
