# Four small programs, modelled in Dafny

The repository holds four unrelated programs, and this project models the core of each one.

- **`four_in_a_row.py`** is a connect-four move search. It has:
  - a successor generator (`get_child_boards`);
  - a static evaluator that scores every 4-cell window with the weights `[0, 1, 4, 16, 1000]`;
  - three depth-limited engines that answer a column or `None`: minimax, fail-soft alpha-beta and expectimax.

  The board class itself is not part of this model. It is specified as an immutable grid value (`Board`) with the operations the search uses: `row`, `col`, `placeable`, `place` (drop into the lowest empty cell) and `terminal` (board full, or four in a line). `±math.inf` is the datatype `Ext`.
- **`MMU.c`** is a virtual-memory manager with a 16-entry FIFO TLB, a 256-entry page table, and least-recently-used eviction when physical memory (128 or 256 frames) is full. Each input address is one `Translate` step on an immutable `State` record. The backing store is a 65 536-byte sequence.
- **`find_path.py`** searches a road map for a route. It has:
  - the edge-list loader;
  - `get_distance`;
  - four searches sharing a `reached` list: `bfs`, `dfs`, `ucs` and `a_star`;
  - the command-line dispatch that picks one and reports the route.

  Python's `PriorityQueue` order on `(priority, path)` tuples is modelled as lexicographic order.
- **`main.c`** is a small shell. It has:
  - `cut`, a `strtok`-on-space tokeniser;
  - `check_sign` and `sign_pos`;
  - the `args1`/`args2` pipe split;
  - the decision `run` makes for one command line. That decision is the `cd` builtin, or a fork whose child backgrounds, redirects, pipes or plainly executes, and whether the parent waits.

Modules follow the programs:
- `Board`, `Successors`, `Evaluator`, `GameTree`, `Minimax`, `AlphaBeta`, `Expectimax` and `Engines` for the game;
- `Mmu`;
- `Graph`, `Search`, `PriorityQueue`, `FindPath` and `Dispatch` for the route finder;
- `Shell`.

`Wrappers` holds `Option`.

## Model

| member | source | states |
|---|---|---|
| Successors.Children | four_in_a_row.py:21-27 | every successor is the board after `player` drops a disc into a placeable column; columns strictly increase; every placeable column appears |
| Successors.SinglePlaceableColumn | four_in_a_row.py:22-26 | with exactly one placeable column, the only successor is the move into it |
| Successors.NotTerminalHasChildren | four_in_a_row.py:21-27 | a game that is not over has at least one successor |
| Board.PlaceDropsLowest | four_in_a_row.py:24-25 | `place` fills the lowest empty cell of the column with the player's disc and changes no other cell |
| Evaluator.SegmentTotal | four_in_a_row.py:67-92 | `rows*(cols-3)` row windows, `cols*(rows-3)` column windows and `(rows+cols-1)*(rows-3)` windows per diagonal, each count clamped at 0 |
| Evaluator.FamilyCount | four_in_a_row.py:75-92 | the windows of four families of equal-width lines number the sum of each family's lines times its windows per line |
| Evaluator.Count | four_in_a_row.py:98-100 | `s.count(player)` is at most the window length, and 0 exactly when the player has no disc in it |
| Evaluator.HistogramIsTotalGain | four_in_a_row.py:94-102 | weighting the bucket counts by `[0, 1, 4, 16, 1000]` equals summing each window's own gain |
| Evaluator.TotalScoreSplits | four_in_a_row.py:101-103 | the per-window score summed over windows is the player's reward minus the adversary's |
| Evaluator.EvaluateIsWindowSum | four_in_a_row.py:93-103 | `evaluate` equals the sum over all windows of one window's score: the histogram form and the per-window form agree |
| Evaluator.EvaluateAntisymmetric | four_in_a_row.py:47-103 | `evaluate(P, b) == -evaluate(O, b)` for the two players |
| Evaluator.NeutralWindows | four_in_a_row.py:62-100 | a window with an off-board cell, a window with both players' discs and an all-empty window each score 0 |
| Evaluator.EmptyBoardScoresZero | four_in_a_row.py:30-103 | an empty board of any size evaluates to 0 |
| GameTree.MaxFold | four_in_a_row.py:151-158 | the max loop ends at least at its start value and at every child value, and is one of them |
| GameTree.MinFold | four_in_a_row.py:171-176 | the min loop ends at most at its start value and at every child value, and is one of them |
| GameTree.RootPickIsLeftmostMax | four_in_a_row.py:153-166 | recording on strict `>` keeps the column of the leftmost maximal child, or the old placement when no child beats the start value |
| Minimax.ValueFinite | four_in_a_row.py:137-176 | every minimax value on a well-formed board is finite: no fold returns its starting infinity |
| Minimax.MinimaxPicksLeftmostBest | four_in_a_row.py:149-167 | at depth ≥ 1 on a game not over, minimax answers the leftmost column whose child value is maximal |
| AlphaBeta.AbValueFailSoft | four_in_a_row.py:221-231 | a pruned value is fail-soft against the exact minimax value: below the window it stays below, inside it is exact, above it stays above |
| AlphaBeta.AbMaxFailSoft | four_in_a_row.py:233-254 | the max loop with its `v >= beta` cutoff and `alpha` update is fail-soft against the exact running maximum |
| AlphaBeta.AbMinFailSoft | four_in_a_row.py:256-270 | the min loop with its `v <= alpha` cutoff and `beta` update is fail-soft against the exact running minimum |
| AlphaBeta.FullWindowIsExact | four_in_a_row.py:218-221 | from the window (`-inf`, `inf`) the pruned value is the exact minimax value |
| AlphaBeta.AbRootIsRootPick | four_in_a_row.py:237-254 | the outermost `max_value` frame records the same column as minimax's outermost frame |
| AlphaBeta.AlphaBeta | four_in_a_row.py:185-282 | alpha-beta answers exactly the column minimax answers, on every board and depth |
| Engines.GiveUpExactlyWhenOver | four_in_a_row.py:137-141 | each of the three engines answers `None` exactly at depth 0 or on a finished game |
| Expectimax.StepChance | four_in_a_row.py:353-361 | the chance node as written gives 0 with no children and the child's value with one child |
| Expectimax.StepChanceIsNotMean | four_in_a_row.py:357-360 | on child values `[4, 4]` the chance node as written gives 3, below every child, while the mean is 4 |
| Expectimax.Mean | four_in_a_row.py:358-360 | the uniform average lies between the smallest and the largest child value |
| Expectimax.SumBounds | four_in_a_row.py:359 | a sum of `n` values each within `[lo, hi]` lies within `[n*lo, n*hi]` |
| Expectimax.ExpValueFinite | four_in_a_row.py:321-361 | every expectimax value on a well-formed board is finite, under either chance rule |
| Expectimax.ExpectimaxPicksLeftmostBest | four_in_a_row.py:333-351 | at depth ≥ 1 on a game not over, expectimax answers the leftmost column whose chance value is maximal |
| Mmu.AddressSplit | MMU.c:96-98 | page and offset are below 256, and `page*256 + offset` is the address modulo 65 536 (the address itself when it fits in 16 bits) |
| Mmu.SearchTlb | MMU.c:216-230 | the frame of the lowest-index TLB entry naming the page, or -1 when none does |
| Mmu.UpdateTlb | MMU.c:238-253 | the in-place append-or-shift loop computes the FIFO insertion `TlbInsert` |
| Mmu.TlbHoldsLastInsertions | MMU.c:238-253 | after any run of insertions into the blank TLB, it holds the last 16 in insertion order, and the count is the number of insertions capped at 16 |
| Mmu.UpdatePageTable | MMU.c:232-236 | only entry `page` changes: it becomes valid with the given frame and time |
| Mmu.LruVictim | MMU.c:137-152 | the victim is valid, has the least `update_time` among valid entries, and is the lowest such index |
| Mmu.InitialInv | MMU.c:38-50 | the initial tables satisfy the invariant: blank TLB, nothing valid, no frame in use |
| Mmu.EvictKeepsInv | MMU.c:155-162 | evicting the victim makes one fewer valid entry, and no remaining entry uses the freed frame |
| Mmu.LoadKeepsInv | MMU.c:164-178 | loading a page into a free frame keeps the count, frame bounds, distinct frames and loaded contents |
| Mmu.TlbHitStep | MMU.c:100-109 | a TLB hit stamps the page's entry with the new clock and counts a hit; no other page-table entry, the TLB and its count, memory and `memory_count` are unchanged |
| Mmu.PageHitStep | MMU.c:113-122 | a page-table hit stamps the page's entry and inserts (page, frame) into the TLB; no other page-table entry, memory and `memory_count` are unchanged |
| Mmu.FaultStep | MMU.c:123-178 | a fault uses the next free frame (and `memory_count` grows by one), or with memory full pages out the least recently used page and reuses its frame (`memory_count` unchanged); only that frame of memory changes, to the page's bytes; the page table changes only at the victim and the page; the TLB gets (page, frame) |
| Mmu.Translate | MMU.c:92-193 | keeps the invariant and satisfies `Translated`: the outcome is a TLB hit exactly when the TLB holds the page, a fault exactly when neither holds it; the frame is the TLB's first match, the page table's frame, the next free frame or the LRU victim's frame; every field of the next state is pinned; the printed byte is read from that frame, and is the backing store's byte unless it was a TLB hit |
| Mmu.TranslationIsDetermined | MMU.c:92-193 | `Translated` leaves nothing open: one outcome, one next state and one printed line per state and address |
| Mmu.Run | MMU.c:57-196 | only memory sizes 128 and 256 are accepted; then line `i` is the translation of address `i` from the state the earlier lines left, starting from the initial tables; the counters are the final state's, the total being the number of lines up to the 2^24 at which a `float` counter stops growing |
| Graph.LoadIsBuilt | find_path.py:13-31 | after loading, each location's neighbours are its edges' other ends in file order, and each ordered pair's distance is that of its last line, all before the first `END` |
| Graph.LoadStopsAtEnd | find_path.py:14-15 | lines after the first `END` have no effect |
| Graph.LoadClosedSymmetric | find_path.py:20-28 | every neighbour is a location, and `b` is listed under `a` as often as `a` under `b` |
| Graph.GetDistanceSymmetric | find_path.py:50-57 | the argument order does not matter, unless both directions were stored with different distances |
| Graph.GetDistanceOrderCanMatter | find_path.py:50-54 | a map listing `A B 5` and `B A 3` gives 5 one way and 3 the other |
| PriorityQueue.EntryLessStrictTotal | find_path.py:140-145 | the `(priority, path)` order the queue pops by is a strict total order |
| PriorityQueue.PopMin | find_path.py:145 | `q.get()` takes the least entry |
| PriorityQueue.LeastHasLeastPriority | find_path.py:145 | the least entry has the least priority |
| Search.ExtensionsComplete | find_path.py:108-112 | every neighbour not yet reached is pushed as the popped path plus that neighbour |
| Search.ExpandKeepsInv | find_path.py:102-112 | expanding a new location keeps every queued path a repeat-free walk from the origin, and keeps every frontier location offered |
| Search.ExhaustedUnreachable | find_path.py:95-112 | when the frontier empties without reaching the destination, no walk reaches it |
| Search.ShortestPopIsOptimal | find_path.py:143-154 | with non-negative legs, a least-length pop whose end is new is a shortest walk to that end |
| FindPath.Bfs | find_path.py:90-112 | a route is a repeat-free walk from origin to destination; `None` exactly when unreachable; `[origin]` when origin is destination; no walk has fewer locations |
| FindPath.Dfs | find_path.py:114-136 | a route is a repeat-free walk from origin to destination; `None` exactly when unreachable; `[origin]` when origin is destination |
| FindPath.Ucs | find_path.py:138-162 | as for `dfs`, and with non-negative distances no walk costs fewer miles |
| FindPath.CostSoFar | find_path.py:178-181 | on an entry priced as `a_star` pushes it (cost so far plus the heuristic of its end), priority minus that heuristic is the path's cumulative distance |
| FindPath.AStarPopped | find_path.py:170-181 | under the queue invariant every popped entry is so priced, its end is a location with a heuristic unless it is the origin's path, and the first pop is `[origin]` |
| FindPath.FirstMissing | find_path.py:187-192 | the location lacking a heuristic that the loop reaches first, in neighbour order, every earlier one having a heuristic; `None` exactly when all have one |
| FindPath.AStar | find_path.py:164-194 | stops on a location of the map without a heuristic (never when all have one); otherwise a route is a repeat-free walk, and `None` exactly when unreachable |
| Dispatch.LoadEstimatesIsLast | find_path.py:38-47 | a location's heuristic is the value on the last line naming it before the first `END` |
| Dispatch.Answer | find_path.py:196-237 | without a map argument the `open(sys.argv[2])` on line 5 stops the program before any output; then wrong argument count, then locations missing from the map, then an unsupported algorithm; a printed route is a walk with its miles; `ucs`, `bfs` and `dfs` find a route exactly when one exists, and so does `astar` unless it stops on a missing heuristic |
| Shell.Cut | main.c:145-156 | every stored argument is non-empty and free of spaces |
| Shell.CutKeepsText | main.c:145-156 | the arguments concatenated are the input with its spaces removed |
| Shell.CutJoin | main.c:145-156 | splitting space-joined tokens gives the tokens back |
| Shell.CutSplitsAtSpace | main.c:145-156 | a line cut at any one of its spaces gives the tokens before it followed by the tokens after it, so leading, repeated and trailing spaces only separate |
| Shell.CutBound | main.c:145-156 | a line of `n` characters has at most `(n+1)/2` arguments |
| Shell.CutFitsArgs | main.c:14-23 | a line `fgets` can deliver has at most 40 arguments, which with the `NULL` fit `args[41]` |
| Shell.CheckSign | main.c:158-165 | 1 exactly when some argument equals the sign |
| Shell.SignPos | main.c:167-173 | the index of the first argument equal to the sign |
| Shell.PipeSplit | main.c:99-109 | `args1` has the `n` arguments before the bar and `args2` the rest after it |
| Shell.PipeSplitRoundTrip | main.c:99-109 | `args1 + ["|"] + args2` is the whole argument list |
| Shell.Run | main.c:57-143 | `cd` first, then `&`, `>`, `<`, `|`, otherwise a plain exec, each chosen exactly when no earlier operator is present; each acts at the operator's first occurrence |
| Shell.ParentWaits | main.c:137-141 | the parent waits exactly when the last argument is not `&` |
| Shell.BlankLineReadsBeforeArgs | main.c:138 | a blank line gives no arguments, and the wait test then reads `args[-1]` |

## Left out

- I/O is left out: files, `stdin`/`stdout`, `printf` formatting and `print_path`'s text. Each program's inputs are parameters: edge lines, heuristic lines, addresses, a backing store, a command line.
- The GUI launch in `four_in_a_row.py` (lines 369-381) is left out. So is `CreateQuest.java`, a database client with no logic of its own.
- The board class is not part of this model. `Board` specifies it from its uses. A full board is terminal, and so is a board with four in a line for either player.
- Python floats are modelled as exact `real`s. Rounding, and the NaN that `inf - inf` would give, are left out. Opposite infinities never meet, because every value on a well-formed board is finite.
- Expectimax.StepChance: a chance node with no children gives 0 in the code. It is never reached, because a board with no moves is full and therefore terminal.
- Negative depth limits are excluded by `nat`. The code recurses past 0 until the game ends.
- MMU: the `fseek` failure branch is left out. Offsets `256*page` are always within a regular 65 536-byte file. A short `fread` is also out, because the backing store has exactly 65 536 bytes.
- MMU: the float hit and fault percentages (lines 198-199) are left out. The counts behind them are modelled.
- Mmu.Run: the three counters are `float` in the code (MMU.c:57-59). They are modelled as naturals that grow by one up to 2^24 and then stay there, which is what `++` on a `float` does. So `hits + faults <= total` is promised only for at most 2^24 addresses; beyond that each counter is only bounded by the total.
- The backing store is a sequence of `int`s. The code reads it as `signed char`s (MMU.c:60, 130), so its elements are the values -128..127 that it prints. The model does not restrict the range.
- MMU: the 32-bit `clock` is unbounded, since it cannot wrap within 2^31 input lines.
- Mmu.Translate: on a TLB hit, the byte is read from the TLB's frame as the code does, but it is not claimed to be the backing store's byte for the address. Eviction leaves TLB entries that name the victim's frame (MMU.c:155-162), so a later hit can read a frame that now holds another page.
- Text parsing is abstracted. `line.split(' ')` and `int()` become the `Line` and `Estimate` datatypes. `atoi` of an address becomes an `int`.
- The end marker is the `End` and `EstimatesEnd` constructors. The code tests the prefix `line[:3] == "END"` (find_path.py:14, 42), so a line for a location whose name starts with `END` would also end loading; that case is not modelled.
- Opening a file that does not exist is left out; a missing `sys.argv[2]` is modelled as `NoMapArgument`.
- Distances are `int`s, not `nat`s, because `int()` accepts a sign. FindPath.Ucs: the minimum-miles claim holds only when every stored distance is non-negative.
- FindPath.AStar: no optimality is claimed, because nothing requires the heuristic to be admissible or consistent.
- `reached` is a Python list; it is modelled as a set. Only membership is ever asked of it.
- `get_distance` prints a diagnostic when an edge is missing. That cannot happen on a walk of the loaded map, and the print is left out.
- Shell: `fork`, `execvp`, `pipe`, `dup2`, `wait` and `chdir` are left out; `run` returns its decision as a `Plan`. Also out: fork failure, and the child that carries on after a failed `execvp`.
- Shell: the `!!` history, the `exit` command, the prompt, and the newline strip on line 24 are left out.

## Findings

| source | as written | input that shows it | evidently intended | confidence | as-written member | corrected member |
|---|---|---|---|---|---|---|
| four_in_a_row.py:359-360 | each child's value is added and the running total divided by the number of children, on every iteration | a chance node with child values 4 and 4 gives (0+4)/2 = 2, then (2+4)/2 = 3 | the uniform average (4+4)/2 = 4, as the comment on line 358 says | high; not executed | Expectimax.StepChanceIsNotMean | Expectimax.Mean |
| main.c:138 | the parent compares `args[i-1]` with `"&"` | an empty or all-space line: `cut` returns `i = 0`, so the parent reads `args[-1]`, before the array | wait unless the last argument is `&`; a blank line has none, so wait | high; not executed | Shell.BlankLineReadsBeforeArgs | Shell.ParentWaits |

Further notes on the code:

- A chance node's value is not the mean of its children; it is the fold above. `Expectimax` takes the rule as a parameter: `DivideEachStep` is the code, and `DivideSum` is the mean.
- `get_distance`'s argument order matters when a map lists both directions of an edge with different distances; see Graph.GetDistanceOrderCanMatter.
- In `run`, a line containing both `&` and `>` is backgrounded without redirection, because the `&` test comes first. The model keeps that order.
