# Verified model of cppless

cppless offloads C++ functions to remote invocations: a dispatcher instance starts
invocations, retries refused ones and hands finished ones back; a host-side executor
drives a whole graph of dependent tasks over such an instance. The repository ships a
set of benchmarks that split a search over workers or remote tasks, a ray tracer that
splits an image into tiles, and the metadata codec of its deployment tool. This project
models those parts and proves what they promise.

| files | component |
|---|---|
| `Dispatcher.dfy` | the dispatch / answer / retry / `wait_one` protocol, and the two instance classes that implement it |
| `TaskGraph.dfy`, `ExecutorState.dfy`, `Executor.dfy` | the graph builder, the scheduling invariant, and `await_all` on the node objects |
| `Words.dfy`, `NQueensBoard.dfy`, `NQueens.dfy`, `NQueensSplit.dfy` | 64-bit masks, the naive count, the bit-mask search and prefix enumeration, the two parallel drivers |
| `FloorplanSpec.dfy`, `FloorplanSearch.dfy`, `Floorplan.dfy`, `FloorplanSplit.dfy`, `FloorplanPicture.dfy`, `FloorplanMeaning.dfy`, `FloorplanOverlap.dfy` | placements, what a pruned search must achieve, `add_cell` in place, the split into tasks, the reported board, the minimum over arrangements of rectangles, cells that may overlap |
| `Knapsack.dfy`, `KnapsackSplit.dfy` | the optimum, branch and bound with an incumbent, the split into tasks |
| `RayGeometry.dfy`, `Bvh.dfy`, `Sphere.dfy` | the slab test, the hit list and the bounding volume hierarchy, the sphere |
| `FixedString.dfy`, `Codec.dfy`, `Base64.dfy` | fixed strings, the tagged encoder and the stream decoder, base64 |
| `Tiles.dfy`, `Renderer.dfy` | cutting an image into tiles, rendering them remotely, reassembly in any order |
| `Wrappers.dfy` | `Option` and a few facts about sequences |

How to read the models:

* Code that works step by step is a method on arrays or objects, proved against a
  function or predicate over values; what the code promises is proved about the latter.
  Ghost parameters (`chain`, `at`, `idOf`, `items`, ...) only name the value a state
  stands for.
* The network is a parameter: `Instance.replies` is everything that will ever be
  answered, in order of arrival, and `clock` is how much of it has arrived. Results hold
  for every such sequence. `wait_one` picks an arbitrary finished id. Threads and remote
  tasks of the benchmarks may finish in any order; the shared n-queens counter is
  advanced by an arbitrary worker at a time.
* Integers are unbounded except where a width matters: 64-bit masks, the unsigned
  wrap-around in `ok`, the 32-bit and signed sums of the n-queens drivers, the overflow
  conditions of knapsack, the character cast of floorplan and the length fields of the
  codec are written out.
* Reals stand for doubles. Rays have no zero direction component.

Where the code differs from what its documentation or its name suggests, the model
follows the code and states exactly when the expected result holds:

* `std::accumulate(..., 0)` in the n-queens dispatcher driver sums in `int`, and the
  threads driver returns `unsigned int`: with the other conditions met, the results are
  right exactly below 2^31 and 2^32 (`NQueensSplit.Dispatcher`, `.Threads`). Both store
  indices as `int`, right exactly below 2^31 prefix entries (`NQueensSplit.BlockIndices`);
  the threads driver reads them back as `unsigned int` and is good for fewer than 2^32.
* `nqueens_serial` takes the size as `unsigned char`, so the count is that of the size
  modulo 256. Its dispatch covers 1..20 and gives 0 for any other low byte, which is never
  the number of boards: every size but 2 and 3 has one (`NQueens.CountedExactly`,
  `.BoardExists`, `.SerialDriver`).
* `lay_down` marks squares with the cell number cut to a character, so a cell whose number
  is a multiple of 256 leaves no trace (`FloorplanPicture.MultiplesLeaveNoTrace`), and
  later cells may lie on its squares. The reported picture is a floorplan exactly without
  such a cell (`.PicturedExactly`). The reported area is for all inputs the minimum over
  the floorplans without overlap exactly when no cell but the last has such a number
  (`FloorplanOverlap.SeparateExactly`); in general it is the minimum over the arrangements
  in which the other cells keep later ones off (`FloorplanMeaning.MinimumApart`). Three
  1x1 cells numbered 1, 256 and 257 get an area although no floorplan exists
  (`FloorplanOverlap.SquaresOverlap`).
* The slab test is strict, so a hit exactly at an end of the range is reported by the hit
  list and can be missed by the hierarchy (`Spheres.FarEndIsLost`, `.NearEndIsLost`).
  `Bvh.AgreesExactlyWhenReached` says exactly when they agree; away from the ends they
  always do (`Bvh.BvhEqualsList`).
* A sphere of radius zero is met by rays its box never lets through (`Spheres.SphereIsGood`).
* An image without pixels still gets a tile, and that tile lies outside of it
  (`Tiles.QuantizeImage`).
* A fixed string of 2^32 characters or more does not survive the codec
  (`Codec.LongStringIsCut`); a map keeps all its fields exactly when the keys are distinct
  as the decoder sees them (`Codec.DistinctKeysKept`).
* A task chained after fewer value-carrying senders than it has parameters compiles, and
  `await_all` throws when it gets there (`HostController.Executor.AwaitAll`).
* `include/cppless/graph/host_controller_executor.hpp:197` passes the value of an empty
  future as the result target. The model takes the evident intent: a future is a result
  cell that exists from the start and is filled by the dispatcher.

## Model

| member | source | states |
|---|---|---|
| Dispatching.StepKeepsPartition | include/cppless/dispatcher/aws-lambda.hpp:227-303 | Every protocol step keeps the ids handed out partitioned into in flight, lost, finished and returned, and the targets written exactly for finished and returned ids, each with its own result. |
| Dispatching.ExactlyOnceDelivery | include/cppless/dispatcher/local.hpp:254-275 | Over every run an id is returned at most once, only after its one successful answer and with its own result written; submissions are the ids plus the 429 answers. |
| Dispatching.RetriesAreInvisible | include/cppless/dispatcher/aws-lambda.hpp:273-283 | Deleting all 429 answers from a run leaves a run that ends in the same state, with one submission per id: refusals create, lose and reorder nothing. |
| Dispatching.ArriveKeepsPartition | include/cppless/dispatcher/aws-lambda.hpp:261-283 | An arriving reply keeps the partition, the requests and the returned ids, and takes its id out of flight unless it is a refusal. |
| Dispatching.StillInFlight | include/cppless/dispatcher/aws-lambda.hpp:294-303 | After any list of replies a request is in flight exactly when it was and no reply answered it for good. |
| Dispatching.Instance.DispatchImpl | include/cppless/dispatcher/aws-lambda.hpp:226-292 | Hands out the next id and takes exactly the dispatch step of the protocol; the target is remembered under that id. |
| Dispatching.SessionsBalanced | include/cppless/dispatcher/aws-lambda.hpp:250-259 | Submissions, first and repeated ones alike, are spread evenly: two sessions never differ by more than one, the first ones being ahead. |
| Dispatching.Instance.OnResult | include/cppless/dispatcher/aws-lambda.hpp:261-271 | A successful answer fills its own target and makes its id finished, as in the protocol. |
| Dispatching.Instance.OnError | include/cppless/dispatcher/aws-lambda.hpp:273-283 | A refusal resubmits the same id; any other error loses the request, as in the protocol. |
| Dispatching.Instance.WaitOne | include/cppless/dispatcher/aws-lambda.hpp:294-303 | Consumes replies only while nothing is finished, then hands out some finished id; it blocks for good exactly with all replies consumed and nothing finished. |
| Dispatching.LocalInstance.DispatchImpl | include/cppless/dispatcher/local.hpp:222-252 | The local instance takes the dispatch step of the same protocol. |
| Dispatching.LocalInstance.Complete | include/cppless/dispatcher/local.hpp:235-242 | The completion callback writes the target and appends the id to the finished list: the successful answer of the protocol. |
| Dispatching.LocalInstance.WaitOne | include/cppless/dispatcher/local.hpp:263-275 | Takes the last finished id off the list: the hand-out step of the protocol. |
| TaskGraph.CreatedAfterSenders | include/cppless/graph/graph.hpp:391-403 | In every graph built with schedule and then, all senders of a node have smaller ids. |
| TaskGraph.SuccessorsCount | include/cppless/graph/execution.hpp:47-64 | A node is on the successor list of another once for every time that one occurs among its senders. |
| TaskGraph.SuccessorsSlots | include/cppless/graph/execution.hpp:78-96 | Slot k of a node is on the list of exactly the k-th sender that carries a value; void senders get empty slots. |
| TaskGraph.ValueIdsAt | include/cppless/graph/execution.hpp:73-96 | The sender at place m, if it carries a value, provides the argument whose index is the number of value-carrying senders before it. |
| TaskGraph.EntriesByPlace | include/cppless/graph/execution.hpp:73-96 | Connecting a node gives a sender exactly the slots of the places it stands at, numbered that way, and empty slots where it is void. |
| TaskGraph.GrowNode | include/cppless/graph/execution.hpp:98-116 | Creating a node appends its slots to its senders, in order, and changes no other list. |
| TaskGraph.Builder.CreateSourceNode | include/cppless/graph/graph.hpp:405-417 | schedule adds one source node to the graph the node objects implement. |
| TaskGraph.Builder.Then | include/cppless/graph/execution.hpp:98-116 | then adds one task node with the given senders to the graph the node objects implement: counters, slots and successor lists. Slot k of the new node is on the list of exactly the sender before which k others carry a value. |
| TaskGraph.Builder.ThenConnect | include/cppless/graph/execution.hpp:73-96 | Connecting raises the counter once per sender and appends to each sender its slots, value slots numbered in order. |
| ExecutorState.StartConsistent | include/cppless/graph/host_controller_executor.hpp:281-288 | The state after populating the ready list satisfies the scheduling invariant. |
| ExecutorState.OwnerWaits | include/cppless/graph/host_controller_executor.hpp:329-342 | A slot about to be served belongs to a node whose counter is still positive. |
| ExecutorState.DeliverKeeps | include/cppless/graph/host_controller_executor.hpp:201-217 | Serving one successor keeps the invariant, with the served slots accounted for. |
| ExecutorState.FinishKeeps | include/cppless/graph/host_controller_executor.hpp:316-325 | After the last successor is served the node counts as propagated and the invariant holds again. |
| ExecutorState.PopKeeps | include/cppless/graph/host_controller_executor.hpp:292-297 | Popping the ready stack yields a node that has not been started, and keeps the invariant. |
| ExecutorState.StartedAfterSenders | include/cppless/graph/host_controller_executor.hpp:329-342 | In every state with the invariant a started node has all its senders propagated. |
| ExecutorState.ArgumentsReady | include/cppless/graph/host_controller_executor.hpp:113-122 | The slots of a started node hold the values of its value-carrying senders, in order, and only those are filled. |
| ExecutorState.ArgsAreTheSendersValues | include/cppless/graph/host_controller_executor.hpp:187-200 | args() reads no unset slot if and only if the node has as many value-carrying senders as parameters, and then its task computes the value of the node. |
| ExecutorState.AllDone | include/cppless/graph/host_controller_executor.hpp:310-312 | With nothing ready and nothing running, every node has propagated and has counter zero. |
| ExecutorState.RunsBounded | include/cppless/graph/host_controller_executor.hpp:290-308 | No node is run twice, so there are never more runs than nodes, and as many exactly when all have run. |
| HostController.DispatchLinks | include/cppless/graph/host_controller_executor.hpp:304-307 | Dispatching a node extends the one-to-one link between invocation ids and task nodes. |
| HostController.HandOutUnlinks | include/cppless/graph/host_controller_executor.hpp:314-322 | A handed-out id belongs to a running node, which then is no longer running. |
| HostController.RunningIsOutstanding | include/cppless/graph/host_controller_executor.hpp:314-315 | A running node has an invocation that is in flight or lost when nothing is finished. |
| HostController.NothingOutstanding | include/cppless/graph/host_controller_executor.hpp:310-312 | With no node running no invocation is in flight or lost. |
| HostController.Executor.Notify | include/cppless/graph/host_controller_executor.hpp:329-342 | Lowers the counter and pushes the node when it reaches zero, and nothing else. |
| HostController.Executor.PropagateValue | include/cppless/graph/host_controller_executor.hpp:201-217 | Serving all successors of a started node leads from one consistent state to the next, with exactly that node newly propagated. |
| HostController.Executor.RunSource | include/cppless/graph/host_controller_executor.hpp:236-255 | A source node finishes at once and notifies its successors; no invocation is made. |
| HostController.Executor.Run | include/cppless/graph/host_controller_executor.hpp:187-200 | The invocation made for a task node computes the value of that node into its own future. |
| HostController.Executor.RunLast | include/cppless/graph/host_controller_executor.hpp:293-307 | The last ready node is run: a source finishes, a task is dispatched, and a task with an unset slot throws, which happens only to a task with an unfed parameter. The node is appended to the runs. |
| HostController.Executor.RunReady | include/cppless/graph/host_controller_executor.hpp:291-308 | The inner loop ends with an empty ready stack, every node it ran being finished or running, or at a node whose args() throws, with that node off the stack and nothing else changed. |
| HostController.Executor.WaitOne | include/cppless/graph/host_controller_executor.hpp:314-318 | Either the id of a running node comes back, or the instance is blocked with a request lost or never answered. |
| HostController.Executor.FinishOne | include/cppless/graph/host_controller_executor.hpp:317-325 | The node that came back propagates the value of its future, which is the value of the node. |
| HostController.Executor.AwaitAll | include/cppless/graph/host_controller_executor.hpp:270-327 | Schedule independence and completion, for every graph: whatever the replies and the order of `wait_one`, every propagated task node holds what its task makes of the values held by its senders, each as the argument whose index is the number of value-carrying senders before it. The loop ends if and only if every parameter is fed and no request is left lost or unanswered (left unanswered, when the network only answers with results and refusals), and then every node was run exactly once, has propagated and has counter zero; otherwise it blocks on such a request, or args() throws at a node with fewer value-carrying senders than parameters, after all its senders propagated. The runs of task nodes are linked one to one with the invocations made, each of which carries the value of its node. |
| Words.LowestBit | benchmarks/bots/nqueens/common.cpp:22-24 | `(~x + 1) & x` is the lowest bit set, and the exclusive or clears exactly that bit. |
| Words.BitFree | benchmarks/bots/nqueens/common.cpp:21 | Masking with a complement keeps exactly the positions that are in the mask and not in the word. |
| Words.BitShifts | benchmarks/bots/nqueens/common.cpp:26-27 | The shifts move every bit by one and drop what leaves the 64-bit word. |
| NQueensBoard.CountIsPlacements | benchmarks/bots/nqueens/common.cpp:63-76 | The reference count is the number of boards of n queens in n columns that `ok` accepts. |
| NQueensBoard.SkipConflicts | benchmarks/bots/nqueens/common.cpp:21-28 | Columns that conflict contribute nothing to the count. |
| NQueensBoard.CountFitsWord | benchmarks/bots/nqueens/common.cpp:60 | For every size the dispatch covers, the count fits 64 bits. |
| NQueens.PlaceQueen | benchmarks/bots/nqueens/common.cpp:26-27 | Or-ing and shifting the three masks represents the board with one more queen. |
| NQueens.FreeColumns | benchmarks/bots/nqueens/common.cpp:15-21 | The bitmap holds exactly the columns `ok` accepts for the next queen. |
| NQueens.AllColumnsTaken | benchmarks/bots/nqueens/common.cpp:17-20 | All columns are taken exactly when all queens are placed. |
| NQueens.SerialTemplate | benchmarks/bots/nqueens/common.cpp:9-29 | For every board size below 64 the mask recursion adds the number of accepted completions to `res`. |
| NQueens.SerialDispatch | benchmarks/bots/nqueens/common.cpp:31-53 | The instantiation chain yields that count for sizes it covers and 0 otherwise. |
| NQueens.CountedExactly | benchmarks/bots/nqueens/common.cpp:55-76 | The serial search gives the number of boards `ok` accepts if and only if the size is 1..20. |
| NQueens.BoardExists | benchmarks/bots/nqueens/common.cpp:63-76 | Every size but 2 and 3 has a board that `ok` accepts, given explicitly, so a size that is not dispatched is always counted wrong. |
| NQueens.SerialDriver | benchmarks/bots/nqueens/serial.cpp:8-12 | The serial driver returns the count for the low byte of the size, modulo 2^32; that is the number of boards of that size if and only if it is 1..20 and the number is below 2^32. |
| NQueens.SerialPrefix | benchmarks/bots/nqueens/common.cpp:107-122 | The masks built from a conflict-free prefix give the number of its accepted completions. |
| NQueens.WrappedTest | benchmarks/bots/nqueens/common.cpp:70 | The comparisons in wrapping unsigned arithmetic detect exactly a shared column or diagonal. |
| NQueens.CheckOk | benchmarks/bots/nqueens/common.cpp:63-76 | The two loops decide whether no two of the first n queens attack each other. |
| NQueens.PrefixListIs | benchmarks/bots/nqueens/common.cpp:78-96 | The enumeration holds every conflict-free prefix of the chosen length, and each once. |
| NQueens.PrefixListAscends | benchmarks/bots/nqueens/common.cpp:78-96 | The prefixes come in lexicographic order. |
| NQueens.PrefixesCoverCount | benchmarks/bots/nqueens/common.cpp:78-96 | The counts below the enumerated prefixes add up to the count of the whole board. |
| NQueens.Prefixes | benchmarks/bots/nqueens/common.cpp:78-96 | The recursion over the shared scratchpad appends rows start..end of exactly these prefixes, in order, and leaves the rows before j alone. |
| NQueensSplit.BlocksPartition | benchmarks/bots/nqueens/threads.cpp:42-53 | The blocks start at 0, end at the number of items, and differ in size by at most one. |
| NQueensSplit.BlockIndices | benchmarks/bots/nqueens/threads.cpp:42-53 | The index list holds, as ints, the block boundaries times the prefix length, the last one twice; they are right if and only if the prefix array has fewer than 2^31 entries. |
| NQueensSplit.SixRowsFit | benchmarks/bots/nqueens/threads.cpp:28-37 | For the covered sizes, prefixes of up to six rows stay below that bound. |
| NQueensSplit.PrefixesSumToSerial | benchmarks/bots/nqueens/threads.cpp:32-37 | The prefixes of the chosen length are conflict-free and their counts add up to the serial result. |
| NQueensSplit.LeftEverything | benchmarks/bots/nqueens/threads.cpp:55-71 | The contiguous blocks of all workers together are all the work. |
| NQueensSplit.RunWorkers | benchmarks/bots/nqueens/threads.cpp:55-71 | In every interleaving of the workers the shared counter ends as the sum over all prefixes. |
| NQueensSplit.Threads | benchmarks/bots/nqueens/threads.cpp:12-84 | With fewer than 2^31 prefixes and 2^32 entries in the prefix array, the threads driver returns the serial count modulo 2^32; that is the number of boards `ok` accepts if and only if the size is 1..20 and the number is below 2^32. |
| NQueensSplit.CountBlock | benchmarks/bots/nqueens/dispatcher.cpp:80-89 | The remote task returns the sum over the prefixes of its block. |
| NQueensSplit.BlockSums | benchmarks/bots/nqueens/dispatcher.cpp:73-103 | The task results add up to the sum over all prefixes. |
| NQueensSplit.WrapExactly | benchmarks/bots/nqueens/dispatcher.cpp:105 | Summed in `int` and stored in 64 bits, the total is right exactly when it is below 2^31. |
| NQueensSplit.ToIntIs | benchmarks/bots/nqueens/dispatcher.cpp:105 | An int is the representative of its value modulo 2^32 from -2^31 to 2^31 - 1. |
| NQueensSplit.Dispatcher | benchmarks/bots/nqueens/dispatcher.cpp:30-120 | With fewer than 2^31 entries in the prefix array, the dispatcher driver returns the serial count wrapped to `int`; that is the number of boards if and only if the size is 1..20 and the number is below 2^31. |
| FloorplanSpec.TryAgree | benchmarks/bots/floorplan/common.cpp:185-221 | A placement step depends only on the board, the footprint and the cells already placed, not on what sibling branches left in the cell array. |
| FloorplanSpec.FollowAgree | benchmarks/bots/floorplan/common.cpp:185-244 | The same for the placement of the whole rest of the chain. |
| FloorplanSpec.FollowGrows | benchmarks/bots/floorplan/common.cpp:222-224 | Placing more cells never shrinks the footprint; this is what makes pruning by area safe. |
| FloorplanSpec.StartsExactly | benchmarks/bots/floorplan/common.cpp:41-103 | The corners enumerated are, each once and in order, exactly those against the neighbours: with one neighbour the shape has to touch it and start between 0 and 64, with both a rectangle of the size of the board has to touch them. |
| FloorplanSpec.OnSquares | benchmarks/bots/floorplan/common.cpp:109-127 | By rows and columns: a rectangle is free when all its squares are 0, and painting changes exactly these. |
| FloorplanSpec.DisjointExactly | benchmarks/bots/floorplan/common.cpp:116-122 | On the board two rectangles share no square exactly when one of them is empty or ends before the other begins. |
| FloorplanSpec.GrowAllIsExtent | benchmarks/bots/floorplan/common.cpp:222-224 | The footprint is the least one: every rectangle ends before it does, and one ends at its last row and one at its last column. |
| FloorplanSearch.SameMinimum | benchmarks/bots/floorplan/common.cpp:226-240 | Two optimal results of the same search have the same minimum area, so serial and split search agree. |
| FloorplanSearch.SkipLarge | benchmarks/bots/floorplan/common.cpp:236-240 | Leaving out a branch whose footprint already reaches the minimum loses no better placement. |
| FloorplanSearch.TakeComplete | benchmarks/bots/floorplan/common.cpp:226-233 | A complete placement is recorded exactly when it is smaller. |
| FloorplanSearch.OptimalAgree | benchmarks/bots/floorplan/common.cpp:185-244 | Optimality does not depend on stale extents of cells further down the chain. |
| Floorplan.Starts | benchmarks/bots/floorplan/common.cpp:41-103 | Fills the corners of all start positions, in order, and returns their number, for each of the three kinds of dependence as written. |
| Floorplan.LayDown | benchmarks/bots/floorplan/common.cpp:109-127 | Succeeds exactly when the whole rectangle is free, and then the board differs by exactly that rectangle. |
| Floorplan.Visit | benchmarks/bots/floorplan/common.cpp:207-241 | One turn of the loop accounts for all complete placements that begin with this position. |
| Floorplan.AddCell | benchmarks/bots/floorplan/common.cpp:185-244 | Afterwards the result is the minimum of its old value and every complete placement reachable without pruning, and shows one that attains it; only extents of cells in the chain changed. |
| Floorplan.Serial | benchmarks/bots/floorplan/serial.cpp:27-45 | The serial driver reports an optimal result for the input: no arrangement in which visibly marked cells keep later ones off fits into rows times columns less than the reported area, and one fits into the reported footprint, unless that is the initial result. |
| FloorplanSplit.VisitSplit | benchmarks/bots/floorplan/threads.cpp:54-118 | One turn of the splitting loop: searched here, or left to the task it pushes. |
| FloorplanSplit.AddCellSplit | benchmarks/bots/floorplan/threads.cpp:30-120 | The result together with the pushed tasks covers all complete placements; either there are no tasks or no placement was completed before them. |
| FloorplanSplit.FoldIsMinimum | benchmarks/bots/floorplan/common.cpp:246-255 | Folding with combine yields one of the results, of minimal area. |
| FloorplanSplit.FoldTakesLatest | benchmarks/bots/floorplan/common.cpp:246-255 | Of several results of the least area the latest one is kept. |
| FloorplanSplit.SplitIsOptimal | benchmarks/bots/floorplan/threads.cpp:149-154 | Folding the task results, ties to the later one, is optimal for the whole search and still shows a placement of that area. |
| FloorplanSplit.RunTask | benchmarks/bots/floorplan/dispatcher.cpp:90-102 | A task on private copies is the search of the rest of the chain under the bound of the moment. |
| FloorplanSplit.Parallel | benchmarks/bots/floorplan/threads.cpp:122-157 | For every cutoff the split search reports an optimal result for the input, with the same minimum over arrangements. |
| FloorplanPicture.FollowShows | benchmarks/bots/floorplan/common.cpp:109-127 | The board of a complete placement is the disjoint union of one rectangle per chain cell, each in one of its shapes, if no cell number is a multiple of 256. |
| FloorplanPicture.ReportedFloorplan | benchmarks/bots/floorplan/common.cpp:201-242 | Whenever the minimum is below the whole board, and no cell number is a multiple of 256, the non-zero squares of the best board are that union, the footprint is the least one around it and the area is the product. |
| FloorplanPicture.PicturedExactly | benchmarks/bots/floorplan/common.cpp:169-183 | For shapes that have an extent, the best board is a picture of a floorplan if and only if no cell number in the chain is a multiple of 256. |
| FloorplanPicture.MultiplesLeaveNoTrace | benchmarks/bots/floorplan/common.cpp:118-119 | Laying a cell down leaves the board as it was, open to another cell on the same squares, if and only if its number is a multiple of 256. |
| FloorplanMeaning.FollowExactly | benchmarks/bots/floorplan/common.cpp:201-242 | The choices lead to a complete placement on the board if and only if they give an arrangement of rectangles that are free at the start and in which no visibly marked cell shares a square with a later one; the footprint is the least one around these rectangles. |
| FloorplanMeaning.LayArranges | benchmarks/bots/floorplan/common.cpp:201-214 | What is laid out by choices is an arrangement: every cell has the extent of one of its shapes and lies against its neighbours. |
| FloorplanMeaning.ArrangementIsLaid | benchmarks/bots/floorplan/common.cpp:201-214 | Every arrangement is laid out by some choices, so the enumeration misses none. |
| FloorplanMeaning.MinimumApart | benchmarks/bots/floorplan/common.cpp:185-244 | For every chain, no arrangement in which visibly marked cells keep later ones off fits into a smaller area than the reported one, and one fits into the reported footprint, or the result is the initial one. |
| FloorplanMeaning.MinimumSeparate | benchmarks/bots/floorplan/common.cpp:185-244 | When no cell but the last is numbered a multiple of 256, the same over all arrangements without overlap. |
| FloorplanOverlap.SeparateExactly | benchmarks/bots/floorplan/common.cpp:118-119 | For a given chain of cell numbers, that holds for all inputs if and only if no cell but the last is numbered a multiple of 256. |
| FloorplanOverlap.OverlapReported | benchmarks/bots/floorplan/common.cpp:118-119 | For every chain with such a cell there is an input whose reported area belongs to overlapping cells and which no floorplan fits. |
| FloorplanOverlap.SquaresOverlap | benchmarks/bots/floorplan/common.cpp:118-119 | Three 1x1 cells, two of them right of the first, have no floorplan; an area of at most 2 is reported if the second has a number like 256, and that of the whole board otherwise. |
| Knapsack.BestIsOptimum | benchmarks/bots/knapsack/common.cpp:31-34 | The item-by-item value is the maximum over all selections within capacity. |
| Knapsack.SortedByUnitValue | benchmarks/bots/knapsack/common.hpp:68-72 | Falling unit value is the cross-multiplied order the bound needs. |
| Knapsack.LoadedOptimum | benchmarks/bots/knapsack/common.hpp:60-74 | Sorting the input keeps its optimum and establishes that order. |
| Knapsack.BoundIsSafe | benchmarks/bots/knapsack/common.cpp:50 | The truncated bound of the first item is never below the optimum of what is left. |
| Knapsack.CutIs | benchmarks/bots/knapsack/common.cpp:50-55 | A branch is cut exactly when capacity times value of the first item is below its weight times what is missing to the incumbent. |
| Knapsack.SerialSearch | benchmarks/bots/knapsack/common.cpp:35-70 | With any incumbent the result never exceeds the optimum, and equals it unless the incumbent is larger; a branch whose bound is below the incumbent is cut off; the incumbent rises exactly to the result, except at a leaf. |
| Knapsack.Serial | benchmarks/bots/knapsack/serial.cpp:8-13 | Started with the smallest incumbent, the search returns the optimum over all subsets, or the least int for a negative capacity. |
| KnapsackSplit.TaskCount | benchmarks/bots/knapsack/threads.cpp:38-75 | Split at s, n items make 2^(n-s+1) tasks. |
| KnapsackSplit.TaskAt | benchmarks/bots/knapsack/threads.cpp:38-75 | Task k has decided the enumerated items by the binary digits of k, the first item by the highest, and is left with the other items and what the taken ones leave of the capacity. |
| KnapsackSplit.SplitIsOptimal | benchmarks/bots/knapsack/threads.cpp:45-74 | The maximum over the tasks, also those with negative capacity, is the optimum of the whole. |
| KnapsackSplit.Dispatch | benchmarks/bots/knapsack/dispatcher.cpp:36-73 | The recursion dispatches exactly the tasks of the list, without the item before with it. |
| KnapsackSplit.RunTasks | benchmarks/bots/knapsack/threads.cpp:49-64 | Every task, with an incumbent of its own, leaves its optimum in its own slot, whatever the order. |
| KnapsackSplit.Parallel | benchmarks/bots/knapsack/threads.cpp:77-99 | For every split the driver returns the serial optimum; only the enumerated weights must not take the capacity below the range of `int`. |
| RayGeometry.WiderSlab | benchmarks/custom/ray/aabb.hpp:31-35 | A wider slab is entered no later and left no earlier, for either sign of the direction. |
| RayGeometry.HitsBoxMonotone | benchmarks/custom/ray/aabb.hpp:25-43 | A ray that hits a box in a range hits every box around it in every longer range. |
| RayGeometry.HitsExactly | benchmarks/custom/ray/aabb.hpp:25-43 | The test succeeds if and only if two different points of the ray, at parameters in the range, lie in the box; hence not at a single point. |
| RayGeometry.SurroundingContains | benchmarks/custom/ray/aabb.cpp:3-14 | The surrounding box is the least box containing both. |
| Bvh.HitList | benchmarks/custom/ray/hittable_list.cpp:6-24 | The list scan answers what the left-to-right scan with a shrinking range answers, and leaves `rec` alone without a hit. |
| Bvh.ScanIsNearest | benchmarks/custom/ray/hittable_list.cpp:6-24 | The scan answers a nearest hit of all objects on the whole range, or none when there is none. |
| Bvh.Hit | benchmarks/custom/ray/bvh.cpp:16-44 | The recursive hit writes `rec` only on success and answers what the search over the tree answers. |
| Bvh.FindIsSound | benchmarks/custom/ray/bvh.cpp:25-43 | What the tree reports, also with the range shrunk for the right child, is the answer of one of its objects on the whole range. |
| Bvh.FindIsComplete | benchmarks/custom/ray/bvh.cpp:21-43 | A hit strictly inside the range is found, or one at least as near. |
| Bvh.BvhRefinesList | benchmarks/custom/ray/bvh.cpp:16-44 | Against the list the tree invents no hit and reports none nearer; it misses none strictly inside the range, and then at the same distance. |
| Bvh.BvhEqualsList | benchmarks/custom/ray/bvh.cpp:16-44 | Unless the nearest hit is at an end of the range, tree and list report a hit or not alike, at the same distance. |
| Bvh.FindsExactlyOpenHits | benchmarks/custom/ray/bvh.cpp:21-43 | For any range, ends included, the tree reports a hit if and only if some object that is hit has only boxes above it that pass the slab test. |
| Bvh.AgreesExactlyWhenOpen | benchmarks/custom/ray/bvh.cpp:21-43 | When the list reports a hit beyond the start of the range, the tree agrees if and only if there is such an object. |
| Bvh.AgreesExactlyWhenReached | benchmarks/custom/ray/bvh.cpp:21-43 | For any range, tree and list agree if and only if the search, with its shrinking range, reaches an object hit at the distance the list reports. |
| Bvh.MetIsFound | benchmarks/custom/ray/bvh.cpp:16-44 | An object the ray meets strictly inside the range is found, or one at least as near, whatever else happens at the ends. |
| Bvh.JoinHolds | benchmarks/custom/ray/bvh.cpp:115-143 | A node over two subtrees holds exactly the objects of both, and its box contains the boxes of all objects below it. |
| Bvh.Build | benchmarks/custom/ray/bvh.cpp:78-144 | For any axis drawn at each node and any sorted permutation the constructor terminates with a tree over exactly the objects of the range, with the least box around its objects at every node, ordered along some axis at every node, and no higher than the binary logarithm of their number rounded up. |
| Spheres.TwoRoots | benchmarks/custom/ray/sphere.cpp:8-25 | The ray is on the surface exactly at the two roots, the lesser one first. |
| Spheres.OnSphereIs | benchmarks/custom/ray/sphere.cpp:8-13 | On coordinates, being on the surface is being at distance radius from the centre. |
| Spheres.NearestIsNearest | benchmarks/custom/ray/sphere.cpp:19-31 | The root chosen is the first parameter in the range at which the ray is on the surface; without one there is none. |
| Spheres.Hit | benchmarks/custom/ray/sphere.cpp:6-38 | The method reports exactly that parameter and leaves `rec` alone otherwise. |
| Spheres.BoxLetsThrough | benchmarks/custom/ray/sphere.cpp:40-45 | The bounding box lets every ray through that meets the sphere strictly inside the range. |
| Spheres.BoxIsLeast | benchmarks/custom/ray/sphere.cpp:40-45 | The bounding box is the least box around the surface. |
| Spheres.SphereIsGood | benchmarks/custom/ray/sphere.cpp:6-45 | A sphere meets the contract the hierarchy relies on if and only if its radius is positive. |
| Spheres.HitScene | benchmarks/custom/ray/renderer.cpp:65-76 | The hierarchy built over any scene of spheres of positive radius, hit by a ray, reports a point in the range at which the ray meets one of them, with the material of a sphere met there, and none is met earlier strictly inside the range; if none is met exactly at an end, it is the first such point of the range, or there is none. |
| Spheres.FarEndIsLost | benchmarks/custom/ray/aabb.hpp:40-42 | The unit sphere met first exactly at the end of the range: the list reports it and the tree does not. |
| Spheres.NearEndIsLost | benchmarks/custom/ray/aabb.hpp:40-42 | The unit sphere met last exactly at the start of the range: the list reports it and the tree does not. |
| FixedString.Blank | include/cppless/utils/fixed_string.hpp:35-42 | The default buffer is all NUL. |
| FixedString.Concat | include/cppless/utils/fixed_string.hpp:86-99 | The result holds the characters of both operands and one terminator. |
| Codec.BytesOfWord | include/cppless/utils/fixed_string_serialization.hpp:97-121 | Reading a big-endian word back gives the number, for every number that fits. |
| Codec.UiToString | include/cppless/utils/fixed_string_serialization.hpp:112-121 | Writes the four bytes, most significant first. |
| Codec.UlToString | include/cppless/utils/fixed_string_serialization.hpp:97-110 | Writes the eight bytes, most significant first. |
| Codec.Serialize | include/cppless/utils/fixed_string_serialization.hpp:145-189 | The fixed string built by the overloads holds exactly the encoding of the value. |
| Codec.SerializeItems | include/cppless/utils/fixed_string_serialization.hpp:123-143 | The helper concatenates the encodings of all elements; without elements it is empty. |
| Codec.EncodingIs | include/cppless/utils/fixed_string_serialization.hpp:145-189 | An encoding is the tag 0 to 4, a big-endian word or count, and the text, elements or fields. |
| Codec.ItemsInOrder | include/cppless/utils/fixed_string_serialization.hpp:123-143 | The elements follow one another in order. |
| Codec.FieldsInOrder | include/cppless/utils/fixed_string_serialization.hpp:154-161 | So do the fields, the key of each before its value. |
| Codec.DecodeValue | tools/packagerpy/encoding.py:5-33 | On a stream at any position the decoder returns what the reference decoder returns on the remaining bytes and leaves the cursor after it; it raises in exactly the same cases. |
| Codec.BytesIO.Read | tools/packagerpy/encoding.py:15 | A read returns fewer bytes at the end of the data, without an error. |
| Codec.RoundTrip | tools/packagerpy/encoding.py:5-33 | For every value with lengths below 2^32 and any following bytes, decoding the encoding returns the value and leaves exactly those bytes; it raises exactly when text is not UTF-8 or a key is not hashable. |
| Codec.ViewIsSeen | tools/packagerpy/encoding.py:5-33 | The value a reader gets is the value written: the same numbers and texts, the elements in the same order, and a dictionary whose keys are exactly the numbers and texts of the keys, each with the value of its last field; there is none if and only if some text is not UTF-8 or some key is an array or a map. |
| Codec.DecodedIsSeen | tools/packagerpy/encoding.py:5-33 | Decoding an encoding with lengths below 2^32, whatever follows, returns that value and leaves what follows, or raises in exactly that case. |
| Codec.CutOffInput | tools/packagerpy/encoding.py:6-14 | A cut-off header or an unknown tag raises; a complete word is always read. |
| Codec.CutOffString | tools/packagerpy/encoding.py:13-16 | A cut-off string is returned as what is left of it. |
| Codec.ReadOneWay | include/cppless/utils/fixed_string_serialization.hpp:145-189 | The encoding is injective and prefix-free, and keeps integer widths apart. |
| Codec.LastFieldWins | tools/packagerpy/encoding.py:26-31 | A dictionary has the keys of all fields, each with the value of its last field. |
| Codec.DistinctKeysKept | tools/packagerpy/encoding.py:24-31 | It has one entry per field if and only if no two keys are the same number or text, and then each field keeps its value. |
| Codec.LongStringIsCut | include/cppless/utils/fixed_string_serialization.hpp:163-168 | A UTF-8 string comes back with the rest of the stream if and only if its length is below 2^32. |
| Base64.DecodeEncode | include/cppless/utils/fixed_string_serialization.hpp:209-244 | Strict decoding undoes the encoding of section 4 of RFC 4648, for every input. |
| Base64.EncodedLength | include/cppless/utils/fixed_string_serialization.hpp:214-217 | The encoding has 4*ceil(n/3) characters, none of them NUL. |
| Base64.AlphabetIs | include/cppless/utils/fixed_string_serialization.hpp:209-212 | The 64 symbols are A-Z, a-z, 0-9, plus and slash, in this order. |
| Base64.EncodedSpells | include/cppless/utils/fixed_string_serialization.hpp:209-244 | Every four characters spell, in base 64, the 24 bits of three bytes; a last byte is spelled by two characters and two signs of equality, two last bytes by three and one. |
| Base64.WordOfGroup | include/cppless/utils/fixed_string_serialization.hpp:221-228 | The four digits taken from the 24-bit word are the 6-bit groups of the three bytes. |
| Base64.PutRemainder | include/cppless/utils/fixed_string_serialization.hpp:229-242 | One or two remaining bytes are filled with zero bits and padded; nothing is written without a remainder. |
| Base64.Encode | include/cppless/utils/fixed_string_serialization.hpp:214-244 | The buffer begins with the encoding and is NUL from there on; four extra characters exactly when 3 divides the length. |
| Base64.PackMetadata | include/cppless/dispatcher/aws-lambda.hpp:469-477 | Metadata serialized, base64-encoded, read up to the first NUL, decoded and unpacked is the metadata as a reader should see it, with nothing left over, or cannot be unpacked because some text is not UTF-8 or some key not hashable. |
| Tiles.SpanHolds | benchmarks/custom/ray/tile.hpp:23-28 | Along one side the spans are non-empty, within the extent and hold exactly the positions with their quotient. |
| Tiles.GridCovers | benchmarks/custom/ray/tile.hpp:30-67 | The tiles of the whole grid cover every pixel exactly once; they are all proper if and only if the image has pixels. |
| Tiles.QuantizeImage | benchmarks/custom/ray/tile.hpp:18-68 | The four loops produce exactly the tiles of the grid: an exact cover by non-empty tiles within the tile size, if and only if the image has pixels. |
| Renderer.IndexSame | benchmarks/custom/ray/image.hpp:21-29 | Different pixels have different places in the row-by-row data. |
| Renderer.AtIs | benchmarks/custom/ray/image.hpp:21-29 | The pixel in column x and row y is entry y * width + x. |
| Renderer.Image.Insert | benchmarks/custom/ray/image.hpp:31-42 | Copies the other image to the offset, clipped, and changes no other pixel. |
| Renderer.RenderTile | benchmarks/custom/ray/renderer.cpp:227-245 | The tile image holds the tile's own value at each of its pixels. |
| Renderer.DispatchTiles | benchmarks/custom/ray/renderer.cpp:247-263 | Tile k is invocation first id + k, and its image is that invocation's target. |
| Renderer.InsertShows | benchmarks/custom/ray/renderer.cpp:274-281 | Inserting one more tile image makes it show and disturbs none inserted before. |
| Renderer.AllCollected | benchmarks/custom/ray/renderer.cpp:266-268 | The ids handed out are those of all tiles, each once, in some order. |
| Renderer.Collect | benchmarks/custom/ray/renderer.cpp:266-289 | Whatever the order of completion, the loop completes if and only if no invocation of its own is lost or never answered, and then every tile shows in the target; when the network only answers with results and refusals, if and only if nothing is left unanswered. |
| Renderer.Start | benchmarks/custom/ray/renderer.cpp:212-289 | After one repetition every pixel lies in exactly one tile and shows the value that tile computed for it; it completes if and only if none of its invocations is lost or never answered, or just never answered when the network only answers with results and refusals. |

## Left out

- HTTP/2, TLS, request signing, sockets, pipes and child processes: a request is an item that may succeed, be refused with 429, be lost, or never be answered.
- The beast instance of `aws-lambda.hpp`: same bookkeeping as the nghttp2 one, without the error callback; it would only add easy members.
- `m_completed`, tracing spans, execution statistics, move constructors and destructors of the instances.
- Errors other than 429: the code only prints them, so the model only says that such a request is lost and that `await_all` then blocks.
- A second `await_all` on the same graph: counters are zero afterwards, so it would run every node again; the executor results are for a freshly built graph.
- A slot is modelled as the pair of its owner and its index rather than as an object shared by sender and receiver; task results are values of one type, and tasks without a result are not modelled.
- NQueensSplit.Dispatcher: from 2^31 prefix entries on the driver indexes outside of the array, and nothing is said about it.
- NQueensSplit.Threads: nothing is said from 2^32 prefix entries or 2^31 prefixes on; at most 64 columns, so that a column shifts within a word; a prefix length between 1 and the board size, as the scratchpad has one place per row.
- `pow`, which only sizes a reserve.
- Floorplan.AddCell: the returned number of tasks is not specified. Inputs are those on which the code stays within its arrays and the board: an acyclic chain whose dependences are cell 0 or earlier in the chain, at most 64 start positions per shape, and every enumerated placement on the board.
- Knapsack.SerialSearch: assumes positive weights, non-negative values and no overflow of `int`; the quotients of the bound and of the unit values are exact.
- `std::sort` is any function that returns a sorted permutation.
- Reading input files, argument parsing, measurements and printed output.
- Bvh.Build: an empty range, for which the recursion of the code does not end, is excluded.
- Bvh.BvhRefinesList: which of several objects at exactly the same distance is recorded may differ between tree and list; only the distance is compared.
- Spheres.Hit: the hit point, the normal and the face flag of the record are functions of the distance and are not recorded; the square root is exact.
- Materials, camera, colours and random sampling of the ray tracer: the value of a pixel is an arbitrary function of its tile and position.
- The claim loop of the multi-threaded renderer: an atomic counter hands every tile to one worker; it would only add easy members.
- Renderer.Start: an image without pixels is excluded, as its one tile has a negative offset.
- Codec.DecodeValue: UTF-8 decoding is a parameter, and all exceptions are one failure. Characters are bytes 0..255; the table from unsigned to signed characters is the identity on them.
- Odd-length tuples in a map wrapper, type names and compiler built-ins of the fixed strings.
- The cereal and boost archives, the deployment tool around the decoder, the sort benchmark, the router of the local server and the numeric benchmarks.
