# 2048 board engine (Unity GameManager, Block, Node) in Dafny

This project models the game logic of a Unity 2048 clone: a W x H grid of
nodes, the list `_blocks` of live blocks, the turn state machine
(Initializing, SpawnBlocks, WaitingInput, MovingBlocks, Win, Lose), the spawn
step and the shift that slides and merges blocks in one direction.

The model has two layers.

- `Board` (board.dfy) describes the board as a value: one entry per node, each
  empty or holding a tile (the block's identity, value and merge flag). It
  defines the synchronous shift loop as the function `Pass` and a whole move
  (the loop, then the flag reset) as `Shift`. The spawn step is the relation
  `SpawnedOn`. The same module proves what a shift keeps (total value, one
  block fewer per merge, no block on two nodes, flags down afterwards, no block
  in two merges) and why it keeps it: a block only ever ends on a node ahead of
  its start, and the traversal order processes those nodes first.
- `Game` (game.dfy) is the `GameManager` class itself. Its fields are the node
  list, the block list, the state and the move counter. Every method is proved
  against `Board`. A ghost field `cells` holds the board as a value, and
  `Linked` and `Tracked` say that the nodes and the blocks on the heap agree
  with it. A shift leaves `cells == Shift(W, H, old(cells), d)`. The SpawnBlocks
  step leaves `SpawnTurn`, which says the right number of blocks appeared on
  free nodes and the verdict is Win, Lose or WaitingInput as the source decides
  it. `Blocks` (block.dfy) and `Nodes` (node.dfy) are the two small classes
  whose setters the manager calls. `Geometry` (geometry.dfy) holds
  coordinates, directions and the node-list layout.

Coordinates are Unity's `Vector2Int`: x grows to the right and y grows upwards.
CreateNodeGrids lays the nodes out column by column, so the node at (x, y) is
entry x * H + y of the node list. As a consequence, the blocks at (0, 0) and
(0, 1) share a column and merge on a Down move, not on a Left move.

Three behaviours of the source are stated as they are written:

- The Lose test counts free nodes before the spawn. The game is lost when at
  most one node was free, even if a merge is still possible on the filled
  board (`Game.LoseMeansFull`).
- The merge test reads only the destination's flag and value. A block that
  merged during this shift refuses a second merge, and a block holding 2048 or
  more refuses every merge.
- The snapshot of the block list is taken once, before the loop.

Randomness is a parameter. The shuffle of the free nodes is the oracle `picks`:
draw k takes the free node at position `picks[k]` modulo the number still
free, which is drawing without replacement. The coin that chooses between the
two configured spawn values is the oracle `coins`. Key polling becomes an
`Option<Dir>` argument to `Update`.

## Model

| member | source | states |
|---|---|---|
| Geometry.Delta | Assets/Scripts/GameManager.cs:76-88 | the four keys map to Unity's unit vectors: one axis each, x for Left and Right, y for Up and Down, positive for Up and Right |
| Geometry.PosOf | Assets/Scripts/GameManager.cs:192-200 | the node at entry i of the list built by the nested loops lies on the grid at (i / H, i % H), and x * H + y gives i back |
| Geometry.IndexOf | Assets/Scripts/GameManager.cs:192-200 | a grid coordinate names an entry of the node list, and PosOf of that entry is the coordinate again |
| Geometry.StepTowardsWall | Assets/Scripts/GameManager.cs:273-277 | one step from a node on the grid stays on the grid exactly when the wall is still ahead, and brings the wall one step closer, so the slide loop ends |
| Geometry.IndexOrderIsLex | Assets/Scripts/GameManager.cs:255 | node-list order is the order of OrderBy(x).ThenBy(y), in both directions |
| Geometry.AheadComesFirst | Assets/Scripts/GameManager.cs:255-259 | every node ahead of a block in the move direction comes before it in the traversal order (ascending for down and left, reversed for up and right) |
| Blocks.CanMergeRule | Assets/Scripts/Block.cs:41-49 | the merge test holds exactly when the value is below 2048 and equals the mover's, and it fails at 2048 or more whatever the mover holds |
| Blocks.CanMergeValue | Assets/Scripts/Block.cs:41-49 | the merge test on a value pair: it accepts only an equal value below 2048 (both directions in Blocks.CanMergeRule) |
| Blocks.Block.CanMerge | Assets/Scripts/Block.cs:41-49 | CanMerge(v) is true exactly when CurrentValue < 2048 and CurrentValue == v, is false at 2048 or more, and reads the block without changing it |
| Blocks.Block.constructor | Assets/Scripts/Block.cs:12-14 | a new block has the default coordinate, value 0 and no flag |
| Blocks.Block.SetData | Assets/Scripts/Block.cs:16-18 | the value becomes the block type's value, and the coordinate and the flag stay as they were |
| Blocks.Block.IncreaseInternalValue | Assets/Scripts/Block.cs:25-28 | the value doubles, and the coordinate and the flag stay as they were |
| Blocks.Block.SetIndex | Assets/Scripts/Block.cs:30-34 | the coordinate becomes the argument, and the value and the flag stay as they were |
| Blocks.Block.SetIsMerged | Assets/Scripts/Block.cs:36-39 | the flag becomes the argument, and the coordinate and the value stay as they were |
| Nodes.Node.constructor | Assets/Scripts/Node.cs:9-11 | a node fresh from the prefab holds no block |
| Nodes.Node.Initialize | Assets/Scripts/Node.cs:13-18 | the node's coordinate becomes (x, y) and its block reference is left alone, so a new node stays empty |
| Nodes.Node.SetBlock | Assets/Scripts/Node.cs:20-24 | the node holds the given block, or none for null, and keeps its coordinate |
| Board.ClearFlags | Assets/Scripts/GameManager.cs:378-381 | after the reset no flag is up, and every node holds the same block with the same value as before |
| Board.Occupied | Assets/Scripts/GameManager.cs:255 | the nodes holding a block, in node-list order: every entry is a node of the board that holds a block |
| Board.Vacant | Assets/Scripts/GameManager.cs:207 | the nodes without a block, in node-list order: every entry is a node of the board |
| Board.Reversed | Assets/Scripts/GameManager.cs:258 | the order reversed for Up and Right keeps the length of the list |
| Board.Snapshot | Assets/Scripts/GameManager.cs:255-259 | the ordered list has one entry per block on the board, names only occupied nodes, and names every one of them |
| Board.SnapshotOrdered | Assets/Scripts/GameManager.cs:255-259 | the ordered list is strictly ascending by node position for down and left, and strictly descending for up and right |
| Board.SnapshotIsLexOrder | Assets/Scripts/GameManager.cs:255-259 | the positions of the ordered list are strictly sorted by x and then y, in reverse for up and right |
| Board.Slide | Assets/Scripts/GameManager.cs:271-309 | the inner loop ends on the grid, and when it reports a merge the node it ends on holds a block that accepts the mover |
| Board.Accepts | Assets/Scripts/GameManager.cs:284 | a destination accepts the mover only when it holds an unflagged block of the same value, below 2048 |
| Board.SlideRules | Assets/Scripts/GameManager.cs:271-309 | a block advances n >= 0 nodes through empty nodes only; on a merge the last node held an unflagged block that CanMerge accepts; otherwise it ends on an empty node (or its start) with the wall or a refusing block next |
| Board.StepChangesOnlyMovers | Assets/Scripts/GameManager.cs:311-315 | a block whose slide ends where it started changes nothing, and any other block leaves its start node empty |
| Board.Step | Assets/Scripts/GameManager.cs:267-321 | one turn of the foreach keeps the board's shape and adds at most one move or one merge to the record; the earlier moves and merges stay as they were, as a prefix of the new lists |
| Board.PassOverRecords | Assets/Scripts/GameManager.cs:265-332 | the blocks processed in order add at most one record each to the moves and merges, and the records from before stay as a prefix of both lists |
| Board.PassOver | Assets/Scripts/GameManager.cs:265-332 | the blocks of a prefix of the ordered list processed one after the other keep the board's shape |
| Board.QuietPassOver | Assets/Scripts/GameManager.cs:265-332 | when the blocks processed add no move and no merge, the board is exactly as before |
| Board.Pass | Assets/Scripts/GameManager.cs:265-332 | the whole foreach keeps the board's shape and records at most one move or merge per block on the board |
| Board.Shift | Assets/Scripts/GameManager.cs:265-381 | a whole move, the foreach and then the flag reset, keeps the board's shape and leaves no flag up (what it keeps besides is Board.ShiftKeepsInvariants) |
| Board.QuietShift | Assets/Scripts/GameManager.cs:265-381 | on a board at rest, a move in which no block moves or merges leaves the board exactly as it was, so repeating it changes nothing |
| Board.StepKeepsInvariant | Assets/Scripts/GameManager.cs:284-321 | one more block of the loop keeps the pass invariant: later blocks still where they started, no block on two nodes, total value unchanged, one block fewer per merge, merge record consistent |
| Board.MoveKeepsInvariant | Assets/Scripts/GameManager.cs:317-321 | a plain move onto an empty node that is no later block's start keeps the pass invariant |
| Board.MergeKeepsInvariant | Assets/Scripts/GameManager.cs:284-304 | a merge into an accepting block that is no later block's start keeps the pass invariant: the doubled mover is flagged and the absorbed block is gone |
| Board.SnapshotBlockInPlace | Assets/Scripts/GameManager.cs:265-268 | when the loop reaches a block of the snapshot, that block is still on the node it started from |
| Board.ShiftKeepsInvariants | Assets/Scripts/GameManager.cs:265-381 | a whole move keeps the total value, removes exactly one block per merge, leaves no block on two nodes and every flag down, and no block takes part in two merges |
| Board.PassCreatesNoBlock | Assets/Scripts/GameManager.cs:265-332 | every block listed after the loop was listed before it |
| Board.RemoveAtFacts | Assets/Scripts/GameManager.cs:292 | dropping one entry of a list without duplicates removes exactly that element and keeps the list duplicate-free |
| Board.RosterSpawn | Assets/Scripts/GameManager.cs:237-241 | a new block appended to the list and placed on an empty node keeps list and board in one-to-one agreement |
| Board.RosterMove | Assets/Scripts/GameManager.cs:317-321 | a block moving to an empty node, with its coordinate updated, keeps list and board in agreement |
| Board.RosterMergeSteps | Assets/Scripts/GameManager.cs:288-292 | doubling and flagging the mover, removing the absorbed block from the list and updating the mover's coordinate keeps list and board in agreement |
| Board.RosterLowerFlag | Assets/Scripts/GameManager.cs:380 | lowering one block's flag keeps list and board in agreement |
| Board.RosterFlags | Assets/Scripts/GameManager.cs:378-381 | no tile on the board is flagged exactly when no block of the list is |
| Board.SpawnOneMore | Assets/Scripts/GameManager.cs:211-213 | one more block with a configured value on an empty node extends the spawn relation by one |
| Board.SpawnedOn | Assets/Scripts/GameManager.cs:205-217 | n new blocks, each with one of the two configured values and no flag, on free nodes, occupied nodes unchanged: n is at most the free count, and the free count drops by n |
| Game.RemoveFirstMembers | Assets/Scripts/GameManager.cs:292 | List.Remove on a list without duplicates drops exactly the given block and keeps the list duplicate-free |
| Game.RemoveFirstAt | Assets/Scripts/GameManager.cs:292 | removing an element by value from a list without duplicates drops its one entry |
| Game.FirstIndex | Assets/Scripts/GameManager.cs:292 | the position List.Remove removes: an entry holding the element, with no earlier one |
| Game.RemoveFirst | Assets/Scripts/GameManager.cs:292 | List.Remove drops exactly one entry when the element is in the list and leaves the length as it was otherwise |
| Game.Spawns | Assets/Scripts/GameManager.cs:209 | the spawn loop places the smaller of the amount asked for and the free count |
| Game.SpawnAmount | Assets/Scripts/GameManager.cs:103 | two blocks before the first move, one after every move |
| Game.SpawnTurn | Assets/Scripts/GameManager.cs:103-121 | a SpawnBlocks step: the free count drops by the number of blocks spawned, and the step ends in Win, Lose or WaitingInput |
| Game.Verdict | Assets/Scripts/GameManager.cs:106-121 | Win exactly when some block holds 2048 or more (checked first), Lose exactly when not and at most one node was free, WaitingInput exactly otherwise |
| Game.LoseMeansFull | Assets/Scripts/GameManager.cs:114-117 | a SpawnBlocks step that ends in Lose leaves no free node and no winning block |
| Game.WaitingLeavesRoom | Assets/Scripts/GameManager.cs:103-121 | after a move, a step that ends in WaitingInput used exactly one free node and leaves at least one |
| Game.GameManager.constructor | Assets/Scripts/GameManager.cs:51-57 | a new manager has no nodes and no blocks, state Initializing and move count 0 |
| Game.GameManager.TryGetNodeAtIndex | Assets/Scripts/GameManager.cs:386-399 | the linear search finds a node exactly when the coordinate is on the grid, and then it is the node at IndexOf of the coordinate |
| Game.GameManager.GetNodeAtIndex | Assets/Scripts/GameManager.cs:401-405 | the node at the coordinate, or null off the grid |
| Game.GameManager.CreateNodeGrids | Assets/Scripts/GameManager.cs:187-203 | W * H fresh, empty nodes are appended, column by column, the node at entry k sitting at PosOf(k) |
| Game.GameManager.Initialize | Assets/Scripts/GameManager.cs:165-170 | the grid is built as CreateNodeGrids builds it, and nothing else changes |
| Game.GameManager.FreeNodes | Assets/Scripts/GameManager.cs:207 | the nodes without a block, in node-list order |
| Game.GameManager.FreeList | Assets/Scripts/GameManager.cs:207-208 | one distinct free node per empty entry of the board, as many as the free count |
| Game.GameManager.SpawnBlockAtNode | Assets/Scripts/GameManager.cs:219-242 | a fresh block with the value and the node's coordinate joins the end of the list and sits on the free node; the heap still matches the board |
| Game.GameManager.PlaceOnNode | Assets/Scripts/GameManager.cs:241 | the node takes the block and the board gets the tile there; no other node changes |
| Game.GameManager.Draw | Assets/Scripts/GameManager.cs:209-214 | one draw puts a block with a configured value on a free node not drawn before, and extends the spawn relation by one |
| Game.GameManager.SpawnRandomBlocks | Assets/Scripts/GameManager.cs:205-217 | min(amount, free) new blocks appear on distinct free nodes, each with one of the two configured values; occupied nodes are unchanged; the result is the free count before spawning |
| Game.GameManager.AnyWinBlock | Assets/Scripts/GameManager.cs:106 | true exactly when some block on the board holds 2048 or more |
| Game.GameManager.OrderBlocks | Assets/Scripts/GameManager.cs:255-259 | the ordered list is the snapshot of the board and holds every block of the list exactly once |
| Game.GameManager.OccupiedBlocks | Assets/Scripts/GameManager.cs:255 | the blocks on the nodes, read in node-list order, are the blocks of the occupied entries |
| Game.GameManager.SnapshotBlocks | Assets/Scripts/GameManager.cs:255 | the snapshot names the blocks of the list and no others |
| Game.GameManager.SnapshotBlocksSorted | Assets/Scripts/GameManager.cs:255-259 | the ordered blocks' CurrentIndex values are strictly sorted by x, then y, and reversed for up and right |
| Game.GameManager.SlideBlock | Assets/Scripts/GameManager.cs:271-309 | the while loop computes Slide on the board; on a merge the destination is the block on the target node; a move ends on an empty node |
| Game.GameManager.RelinkNodes | Assets/Scripts/GameManager.cs:317-321 | the old node is emptied, the target node takes the block, and the board relocates the tile |
| Game.GameManager.SetBlockIndex | Assets/Scripts/GameManager.cs:364 | only the given block's coordinate changes in the list record |
| Game.GameManager.MoveBlock | Assets/Scripts/GameManager.cs:317-331 | a plain move relocates the tile, the block records its new coordinate, and the heap still matches the board |
| Game.GameManager.DoubleAndFlag | Assets/Scripts/GameManager.cs:288-290 | the mover's value doubles and its flag goes up, and no other block changes |
| Game.GameManager.DropBlock | Assets/Scripts/GameManager.cs:292 | `_blocks.Remove` removes exactly the absorbed block's entry |
| Game.GameManager.Absorb | Assets/Scripts/GameManager.cs:288-292 | the mover doubles and is flagged, the absorbed block leaves the list, and the mover records its new coordinate |
| Game.GameManager.AbsorbAndRelink | Assets/Scripts/GameManager.cs:284-321 | the data changes of a merge followed by the node updates: the board relocates the doubled, flagged mover and the list loses the absorbed block |
| Game.GameManager.MergeBlock | Assets/Scripts/GameManager.cs:284-321 | a merge puts the doubled, flagged mover on the absorbed block's node, removes the absorbed block from the list, and keeps the heap matching the board |
| Game.GameManager.MergeRecorded | Assets/Scripts/GameManager.cs:294-301 | the merge joins the list for the animation phase with its target node and the block to destroy |
| Game.GameManager.MoveRecorded | Assets/Scripts/GameManager.cs:323-331 | the move joins the list for the animation phase with its target node |
| Game.GameManager.ShiftOne | Assets/Scripts/GameManager.cs:267-331 | one iteration of the foreach is Step on the board, and the two lists stay the pass's record |
| Game.GameManager.RecordSlide | Assets/Scripts/GameManager.cs:311-331 | once the slide is known, a block that stays changes nothing, and a block that moves or merges changes the board and the two lists as Step says |
| Game.GameManager.PassNext | Assets/Scripts/GameManager.cs:265-332 | one turn of the foreach takes the heap from the pass over the first k snapshot entries to the pass over the first k + 1 |
| Game.GameManager.RunPass | Assets/Scripts/GameManager.cs:255-332 | the foreach over the ordered list leaves nodes, list and records matching the pass over the whole snapshot |
| Game.GameManager.ShiftPass | Assets/Scripts/GameManager.cs:250-332 | the synchronous loop changes the board to Pass of the board before, creates no block, and hands the pass's moves and merges to the animation phase |
| Game.GameManager.ClearBlockFlag | Assets/Scripts/GameManager.cs:380 | only the given block's flag changes in the list record |
| Game.GameManager.LowerFlag | Assets/Scripts/GameManager.cs:378-381 | one iteration of the reset lowers the flag of one block of the list and of its tile |
| Game.GameManager.ResetMergeFlags | Assets/Scripts/GameManager.cs:378-381 | the reset loop turns the board into ClearFlags of it and leaves no flag up |
| Game.GameManager.ChangeState | Assets/Scripts/GameManager.cs:92-140 | entering a state records it and runs its action: Initializing builds the grid and spawns, SpawnBlocks spawns and judges, the others change nothing else |
| Game.GameManager.SpawnAndJudge | Assets/Scripts/GameManager.cs:102-122 | spawns SpawnAmount(moveCount) blocks (2 before the first move, else 1) and enters the verdict on the new board and the old free count |
| Game.GameManager.SpawnForTurn | Assets/Scripts/GameManager.cs:103-121 | the spawn and the verdict: SpawnAmount(moveCount) blocks on free nodes, and the next state is the verdict on the new board and the old free count |
| Game.GameManager.InitializeGame | Assets/Scripts/GameManager.cs:142-146 | an empty W x H grid is built and the first SpawnBlocks step runs on it |
| Game.GameManager.Start | Assets/Scripts/GameManager.cs:59-65 | the game starts with Initializing, then SpawnBlocks with two blocks on an empty grid, then the verdict |
| Game.GameManager.ShiftBlocksAsync | Assets/Scripts/GameManager.cs:250-384 | the move counter goes up by exactly one, the board becomes Shift of the board before, then MovingBlocks and SpawnBlocks follow, even when no block moved |
| Game.GameManager.ShiftAndSettle | Assets/Scripts/GameManager.cs:250-381 | the pass, MovingBlocks and the flag reset together turn the board into Shift of the board before |
| Game.GameManager.Settle | Assets/Scripts/GameManager.cs:334-381 | MovingBlocks is entered and every flag is reset, which is ClearFlags on the board |
| Game.GameManager.Update | Assets/Scripts/GameManager.cs:67-90 | input outside WaitingInput, or no key, changes nothing, so Win and Lose are final; a key in WaitingInput runs one full move |

## Left out

- Rendering and UI are not modelled: sprites, colours, texts, the board sprite (CreateBoard), the float world positions of the nodes, RefreshMoveCountText, the result text and RefreshDebugName. None of them affects the game state.
- Animation and async are not modelled: Block.MoveAsync, the UniTask list and WhenAll, the list pools and the cancellation token. MovingBlocks is one instantaneous step.
- Game.GameManager.MoveBlock and Game.GameManager.Absorb set the block's coordinate in the same step as the node update. The source defers SetIndex to the end of the animation (lines 345 and 364), which still comes before the next accepted input.
- The merge animation's `SetData(GetBlockTypeByValue(CurrentValue))` (lines 362-363) is not modelled. On the value it is the identity: CacheBlockTypeMap (lines 175-178) files each type under its own value, so a lookup that succeeds returns a type holding the block's current value.
- RecycleBlock and the `_recycleBlocks` pool are not modelled, because pooling only saves memory. The absorbed block has already left `_blocks`; in the model it simply drops out. SpawnBlockAtNode always takes a fresh block.
- The `blockTypes` table (CacheBlockTypeMap, GetBlockTypeByValue) is filled in the Unity inspector and is not modelled. The dictionary lookup throws for a missing value; the model assumes every spawn and merge value is in the table.
- Random.value is replaced by the oracles `picks` and `coins`, and the 0.7 probability of the first spawn value is not modelled.
- Key polling (lines 74-89) is replaced by the `Option<Dir>` argument of `Update`.
- InitializeDebug is unreachable (its call is commented out) and is not modelled.
- Two concrete boards are not stated as lemmas: three equal blocks in a row moved toward the wall (giving 4, 2), and the debug column 2, 2, 4, 2 moved Down (giving 4, 4, 2). On a literal board the solver keeps unfolding coordinate literals and runs past the resource bound. The rule they illustrate is proved in general: a flagged block refuses a merge (`Board.SlideRules`), and no block takes part in two merges (`Board.ShiftKeepsInvariants`).
- `gridSize` is a float Vector2; W and H are modelled as positive integers.
- Game.GameManager.OrderBlocks reads the blocks off the nodes in node-list order instead of sorting `_blocks` with OrderBy/ThenBy. It is proved to give the sorted order (`Game.GameManager.SnapshotBlocksSorted`), but the sorting algorithm itself is not modelled.
- C#'s 32-bit int is not modelled; values are unbounded integers. A merge needs a value below 2048, so doubling stays far below the limit for the configured spawn values.
- The `default` branch of ChangeState (line 138) is not modelled, because it cannot be reached with the six states.
- Game.GameManager.ShiftPass states that the list after the pass holds only blocks from before. Together with Tracked, it also holds exactly the blocks on the board. It does not state the order of the list after `Remove`.
