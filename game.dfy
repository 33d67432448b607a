/** GameManager.cs without rendering: the node grid, the list of live blocks,
    the turn state machine, the spawn step and the synchronous part of a
    shift. Every method is proved against the value model of module Board:
    the ghost field `cells` is the board as a value, and Linked and Tracked
    tie it to the nodes and to the blocks on the heap. */
module Game {
  import opened Geometry
  import opened Blocks
  import opened Nodes
  import opened Board

  datatype State = Initializing | SpawnBlocks | WaitingInput | MovingBlocks | Win | Lose

  /** A block holding this value or more wins the game. */
  const WinBlockValue := 2048

  /** What the shift pass hands to the animation phase: a block and the node
      it goes to, plus the block it absorbs there for a merge. */
  datatype BlockMoveInfo = BlockMoveInfo(TargetNode: Node, BlockToUpdate: Block, BlockToDestroy: Option<Block>)

  /** The block a board entry refers to, null for an empty node. */
  function IdOf(o: Option<Tile<Block>>): (b: Block?)
    ensures b == null <==> o.None?
  {
    if o.Some? then o.value.id else null
  }

  /** The moves and merges handed to the animation phase are the pass's
      record, entry by entry: the block, its target node and, for a merge, the
      block to destroy. */
  ghost predicate Recorded(ns: seq<Node>, moveInfos: seq<BlockMoveInfo>, mergeInfos: seq<BlockMoveInfo>, st: PassState<Block>) {
    && |moveInfos| == |st.moves| && |mergeInfos| == |st.merges|
    && (forall e :: 0 <= e < |moveInfos| ==>
          st.moves[e].target < |ns| &&
          moveInfos[e] == BlockMoveInfo(ns[st.moves[e].target], st.moves[e].block, None))
    && (forall e :: 0 <= e < |mergeInfos| ==>
          st.merges[e].target < |ns| &&
          mergeInfos[e] == BlockMoveInfo(ns[st.merges[e].target], st.merges[e].block, Some(st.merges[e].absorbed)))
  }

  /** A move appended to both the pass's record and the list of moves. */
  lemma RecordMove(ns: seq<Node>, moveInfos: seq<BlockMoveInfo>, mergeInfos: seq<BlockMoveInfo>, st: PassState<Block>,
                   c: Cells<Block>, b: Block, i: nat)
    requires Recorded(ns, moveInfos, mergeInfos, st) && i < |ns|
    ensures Recorded(ns, moveInfos + [BlockMoveInfo(ns[i], b, None)], mergeInfos, PassState(c, st.moves + [Move(b, i)], st.merges))
  {}

  /** A merge appended to both the pass's record and the list of merges. */
  lemma RecordMerge(ns: seq<Node>, moveInfos: seq<BlockMoveInfo>, mergeInfos: seq<BlockMoveInfo>, st: PassState<Block>,
                    c: Cells<Block>, b: Block, absorbed: Block, i: nat)
    requires Recorded(ns, moveInfos, mergeInfos, st) && i < |ns|
    ensures Recorded(ns, moveInfos, mergeInfos + [BlockMoveInfo(ns[i], b, Some(absorbed))], PassState(c, st.moves, st.merges + [Merge(b, absorbed, i)]))
  {}

  /** The position of the first occurrence of x, as List.Remove finds it. */
  function FirstIndex<T(==)>(s: seq<T>, x: T): (k: nat)
    requires x in s
    ensures k < |s| && s[k] == x
    ensures forall j :: 0 <= j < k ==> s[j] != x
  {
    if s[0] == x then 0 else 1 + FirstIndex(s[1..], x)
  }

  /** List.Remove: drops the first occurrence of x, if any. */
  function RemoveFirst<T(==)>(s: seq<T>, x: T): (r: seq<T>)
    ensures |r| == if x in s then |s| - 1 else |s|
  {
    if x in s then RemoveAt(s, FirstIndex(s, x)) else s
  }

  /** On a list without duplicates, List.Remove drops exactly x and keeps the
      list free of duplicates. */
  lemma RemoveFirstMembers<T>(s: seq<T>, x: T)
    requires NoDuplicates(s)
    ensures NoDuplicates(RemoveFirst(s, x))
    ensures forall y :: y in RemoveFirst(s, x) <==> y in s && y != x
  {
    if x in s {
      RemoveAtFacts(s, FirstIndex(s, x));
    }
  }

  /** On a list without duplicates, removing a value removes its one entry. */
  lemma RemoveFirstAt<T>(s: seq<T>, q: nat)
    requires q < |s| && NoDuplicates(s)
    ensures RemoveFirst(s, s[q]) == RemoveAt(s, q)
  {
    assert FirstIndex(s, s[q]) == q;
  }

  /** Grid dimensions are positive. */
  type Pos = n: int | n > 0 witness 1

  /** The amount SpawnRandomBlocks actually places: the amount asked for,
      or every free node when there are fewer. */
  function Spawns(amount: nat, free: nat): (n: nat)
    ensures n <= amount && n <= free && (n == amount || n == free)
  {
    if amount < free then amount else free
  }

  /** The amount the SpawnBlocks state asks for: two before the first move,
      one after every move. */
  function SpawnAmount(moveCount: int): (n: nat)
    ensures 1 <= n <= 2 && (n == 2 <==> moveCount == 0)
  {
    if moveCount == 0 then 2 else 1
  }

  /** The state the SpawnBlocks step ends in: Win when some block reached the
      winning value, checked first; Lose when at most one node was free
      before spawning; WaitingInput otherwise. */
  function Verdict(c: Cells<Block>, freeBefore: int): (s: State)
    ensures s == Win <==> HasTileAtLeast(c, WinBlockValue)
    ensures s == Lose <==> !HasTileAtLeast(c, WinBlockValue) && freeBefore <= 1
    ensures s == WaitingInput <==> !HasTileAtLeast(c, WinBlockValue) && freeBefore > 1
  {
    if HasTileAtLeast(c, WinBlockValue) then Win
    else if freeBefore <= 1 then Lose
    else WaitingInput
  }

  /** One SpawnBlocks step from board `before`: SpawnAmount(moveCount) blocks,
      or as many as there are free nodes, appear on free nodes, and the step
      ends in the verdict on the new board and the free count from before. */
  ghost predicate SpawnTurn(before: Cells<Block>, after: Cells<Block>, moveCount: int, first: int, second: int, s: State): (r: bool)
    ensures r ==> FreeCount(after) == FreeCount(before) - Spawns(SpawnAmount(moveCount), FreeCount(before))
    ensures r ==> s == Win || s == Lose || s == WaitingInput
  {
    var free := FreeCount(before);
    SpawnedOn(before, after, Spawns(SpawnAmount(moveCount), free), first, second) && s == Verdict(after, free)
  }

  /** The game is lost only on a full board: every free node was just used. */
  lemma LoseMeansFull(before: Cells<Block>, after: Cells<Block>, moveCount: int, first: int, second: int)
    requires SpawnTurn(before, after, moveCount, first, second, Lose)
    ensures FreeCount(after) == 0 && !HasTileAtLeast(after, WinBlockValue)
  {
    var free := FreeCount(before);
    assert Spawns(SpawnAmount(moveCount), free) == free;
  }

  /** After a move the game waits for input only with a free node left,
      since one block is spawned and at least two nodes were free. */
  lemma WaitingLeavesRoom(before: Cells<Block>, after: Cells<Block>, moveCount: int, first: int, second: int)
    requires SpawnTurn(before, after, moveCount, first, second, WaitingInput) && moveCount != 0
    ensures FreeCount(after) == FreeCount(before) - 1 && FreeCount(after) >= 1
  {
    assert Spawns(SpawnAmount(moveCount), FreeCount(before)) == 1;
  }

  /** The board before any block: one empty entry per node. */
  function EmptyCells(n: nat): (c: Cells<Block>)
    ensures |c| == n && forall i :: 0 <= i < n ==> c[i].None?
  {
    seq(n, _ => None)
  }

  /** A history that grew by [a] and then by [b, c] grew by [a, b, c]. */
  lemma HistoryGrows(h0: seq<State>, h1: seq<State>, h2: seq<State>, a: State, b: State, c: State)
    requires h1 == h0 + [a] && h2 == h1 + [b, c]
    ensures h2 == h0 + [a, b, c]
  {
    assert h2 == h0 + [a] + [b, c];
  }

  /** How many nested ChangeState calls a state can still lead to. */
  function Rank(s: State): nat {
    match s
    case Initializing => 4
    case SpawnBlocks => 2
    case _ => 0
  }

  class GameManager {
    const W: Pos
    const H: Pos
    const spawnFirstValue: int
    const spawnSecondValue: int

    var nodes: seq<Node>
    var blocks: seq<Block>
    var state: State
    var moveCount: int

    /** The board as a value, one entry per node. */
    ghost var cells: Cells<Block>
    /** Every state ChangeState has entered, in order. */
    ghost var history: seq<State>

    /** The node list as CreateNodeGrids builds it: the node at (x, y) at
        position x * H + y. */
    ghost predicate Laid()
      reads this, nodes
    {
      |nodes| == W * H &&
      forall i :: 0 <= i < |nodes| ==> nodes[i].Index == PosOf(W, H, i)
    }

    /** Each node holds exactly the block the board says it holds. */
    ghost predicate Linked()
      reads this, nodes
    {
      Laid() && |cells| == |nodes| &&
      forall i :: 0 <= i < |nodes| ==> nodes[i].CurrentBlock == IdOf(cells[i])
    }

    /** The fields of the blocks of the list, in list order. */
    ghost function BlockStates(): (r: seq<BlockState>)
      reads this, blocks
      ensures |r| == |blocks|
    {
      seq(|blocks|, j requires 0 <= j < |blocks| reads this, blocks =>
        BlockState(blocks[j].CurrentIndex, blocks[j].CurrentValue, blocks[j].IsMerged))
    }

    /** The blocks on the board are the blocks of the list, one to one, and
        their fields agree with the board: value, flag, and the coordinate of
        the node they sit on. */
    ghost predicate Tracked()
      reads this, blocks
    {
      Roster(W, H, cells, blocks, BlockStates())
    }

    /** Between turns: the heap matches the board and no flag is up. */
    ghost predicate Valid()
      reads this, nodes, blocks
    {
      Linked() && Tracked() && NoFlags(cells) && moveCount >= 0
    }

    /** A manager before Start: no nodes, no blocks. */
    constructor (w: Pos, h: Pos, firstValue: int, secondValue: int)
      ensures W == w && H == h && spawnFirstValue == firstValue && spawnSecondValue == secondValue
      ensures nodes == [] && blocks == [] && cells == [] && history == []
      ensures state == Initializing && moveCount == 0
    {
      W, H := w, h;
      spawnFirstValue, spawnSecondValue := firstValue, secondValue;
      nodes, blocks, cells, history := [], [], [], [];
      state, moveCount := Initializing, 0;
    }

    /** Linear search of the node list for the node at `index`. It finds one
        exactly when the coordinate is on the grid, and then it is the node at
        position IndexOf(index). */
    method TryGetNodeAtIndex(index: Vec) returns (found: bool, node: Node?)
      requires Laid()
      ensures found <==> InBounds(W, H, index)
      ensures found ==> node == nodes[IndexOf(W, H, index)]
      ensures !found ==> node == null
    {
      var k := 0;
      while k < |nodes|
        invariant 0 <= k <= |nodes|
        invariant forall j :: 0 <= j < k ==> nodes[j].Index != index
      {
        if nodes[k].Index == index {
          return true, nodes[k];
        }
        k := k + 1;
      }
      assert forall p :: InBounds(W, H, p) ==> nodes[IndexOf(W, H, p)].Index == p;
      assert !InBounds(W, H, index);
      return false, null;
    }

    method GetNodeAtIndex(index: Vec) returns (node: Node?)
      requires Laid()
      ensures InBounds(W, H, index) ==> node == nodes[IndexOf(W, H, index)]
      ensures !InBounds(W, H, index) ==> node == null
    {
      var _, n := TryGetNodeAtIndex(index);
      node := n;
    }

    /** Builds the grid, left to right and bottom to top within a column, and
        appends the nodes to the list; the board gets one empty entry per node. */
    method CreateNodeGrids()
      modifies this
      ensures |nodes| == |old(nodes)| + W * H && nodes[..|old(nodes)|] == old(nodes)
      ensures forall k :: |old(nodes)| <= k < |nodes| ==>
        fresh(nodes[k]) && nodes[k].Index == PosOf(W, H, k - |old(nodes)|) && nodes[k].CurrentBlock == null
      ensures |cells| == |old(cells)| + W * H && cells[..|old(cells)|] == old(cells)
      ensures forall k :: |old(cells)| <= k < |cells| ==> cells[k].None?
      ensures blocks == old(blocks) && state == old(state) && moveCount == old(moveCount) && history == old(history)
    {
      var n0 := |nodes|;
      ghost var c0 := |cells|;
      ghost var count := 0;
      for i := 0 to W
        invariant count == i * H && count <= W * H
        invariant |nodes| == n0 + count && nodes[..n0] == old(nodes)
        invariant forall k :: n0 <= k < |nodes| ==>
          fresh(nodes[k]) && nodes[k].Index == PosOf(W, H, k - n0) && nodes[k].CurrentBlock == null
        invariant |cells| == c0 + count && cells[..c0] == old(cells)
        invariant forall k :: c0 <= k < |cells| ==> cells[k].None?
        invariant blocks == old(blocks) && state == old(state) && moveCount == old(moveCount) && history == old(history)
      {
        ghost var base := count;
        MulMono(i + 1, W, H);
        for j := 0 to H
          invariant count == base + j && base + H <= W * H
          invariant |nodes| == n0 + count && nodes[..n0] == old(nodes)
          invariant forall k :: n0 <= k < |nodes| ==>
            fresh(nodes[k]) && nodes[k].Index == PosOf(W, H, k - n0) && nodes[k].CurrentBlock == null
          invariant |cells| == c0 + count && cells[..c0] == old(cells)
          invariant forall k :: c0 <= k < |cells| ==> cells[k].None?
          invariant blocks == old(blocks) && state == old(state) && moveCount == old(moveCount) && history == old(history)
        {
          var node := new Node();
          node.Initialize(i, j);
          assert PosOf(W, H, count) == Vec(i, j) by {
            assert IndexOf(W, H, Vec(i, j)) == count;
          }
          nodes := nodes + [node];
          cells := cells + [None];
          count := count + 1;
        }
        assert base + H == (i + 1) * H;
      }
    }

    /** The data part of Initialize: the block-type cache and the board sprite
        are presentation. */
    method Initialize()
      modifies this
      ensures |nodes| == |old(nodes)| + W * H && nodes[..|old(nodes)|] == old(nodes)
      ensures forall k :: |old(nodes)| <= k < |nodes| ==>
        fresh(nodes[k]) && nodes[k].Index == PosOf(W, H, k - |old(nodes)|) && nodes[k].CurrentBlock == null
      ensures |cells| == |old(cells)| + W * H && cells[..|old(cells)|] == old(cells)
      ensures forall k :: |old(cells)| <= k < |cells| ==> cells[k].None?
      ensures blocks == old(blocks) && state == old(state) && moveCount == old(moveCount) && history == old(history)
    {
      CreateNodeGrids();
    }

    /** `_nodes.Where(node => node.CurrentBlock == null)`: the free nodes in
        node-list order. */
    method FreeNodes() returns (free: seq<Node>)
      requires Linked()
      ensures |free| == |Vacant(cells)|
      ensures forall k :: 0 <= k < |free| ==> free[k] == nodes[Vacant(cells)[k]]
    {
      free := [];
      ghost var slots: seq<nat> := [];
      var i: nat := 0;
      while i < |nodes|
        invariant 0 <= i <= |nodes| && slots == Vacant(cells[..i])
        invariant |free| == |slots| && forall k :: 0 <= k < |free| ==> slots[k] < |nodes| && free[k] == nodes[slots[k]]
      {
        VacantNext(cells, i);
        if nodes[i].CurrentBlock == null {
          free, slots := free + [nodes[i]], slots + [i];
        }
        i := i + 1;
      }
      assert cells[..|nodes|] == cells;
    }

    /** Takes a new block, gives it `value` and the node's coordinate, adds it
        to the list and puts it on the node, which must be free. */
    method SpawnBlockAtNode(node: Node, value: int, ghost i: nat)
      requires Valid() && i < |nodes| && node == nodes[i] && node.CurrentBlock == null
      modifies this, node
      ensures Valid() && nodes == old(nodes)
      ensures |blocks| == |old(blocks)| + 1 && blocks[..|old(blocks)|] == old(blocks)
      ensures fresh(blocks[|old(blocks)|])
      ensures cells == old(cells)[i := Some(Tile(blocks[|old(blocks)|], value, false))]
      ensures state == old(state) && moveCount == old(moveCount) && history == old(history)
    {
      ghost var states := BlockStates();
      var block := new Block();
      block.SetData(value);
      block.SetIndex(node.Index);
      blocks := blocks + [block];
      assert blocks[..|old(blocks)|] == old(blocks);
      assert BlockStates() == states + [BlockState(PosOf(W, H, i), value, false)];
      PlaceOnNode(node, block, i, Tile(block, value, false));
      RosterSpawn(W, H, old(cells), old(blocks), states, i, block, value);
    }

    /** Node.SetBlock(block) on the free node at position i: the board gets
        `t` there. */
    method PlaceOnNode(node: Node, block: Block, ghost i: nat, ghost t: Tile<Block>)
      requires Linked() && i < |nodes| && node == nodes[i] && t.id == block
      modifies this, node
      ensures Linked() && nodes == old(nodes) && cells == old(cells)[i := Some(t)]
      ensures blocks == old(blocks) && BlockStates() == old(BlockStates())
      ensures state == old(state) && moveCount == old(moveCount) && history == old(history)
    {
      node.SetBlock(block);
      cells := cells[i := Some(t)];
      forall j | 0 <= j < |nodes| && j != i
        ensures nodes[j].CurrentBlock == IdOf(cells[j])
      {
        assert nodes[j].Index != node.Index;
      }
    }

    /** The free nodes not yet drawn, with their positions in the node list. */
    ghost predicate Undrawn(freeNodes: seq<Node>, slots: seq<nat>)
      reads this
    {
      && |freeNodes| == |slots| && |cells| == |nodes| && NoDuplicates(slots)
      && (forall k :: 0 <= k < |slots| ==> slots[k] < |cells| && cells[slots[k]].None?)
      && (forall k :: 0 <= k < |slots| ==> freeNodes[k] == nodes[slots[k]])
    }

    /** One draw of SpawnRandomBlocks: a new block on the free node at
        position `pick` of the free list, which then leaves the list. */
    method Draw(freeNodes: seq<Node>, ghost slots: seq<nat>, pick: nat, value: int, ghost c0: Cells<Block>, ghost n: nat)
      returns (rest: seq<Node>, ghost slots': seq<nat>)
      requires Valid() && Undrawn(freeNodes, slots) && pick < |freeNodes|
      requires SpawnedOn(c0, cells, n, spawnFirstValue, spawnSecondValue)
      requires value == spawnFirstValue || value == spawnSecondValue
      modifies this, freeNodes[pick]
      ensures Valid() && nodes == old(nodes) && Undrawn(rest, slots') && |rest| == |freeNodes| - 1
      ensures SpawnedOn(c0, cells, n + 1, spawnFirstValue, spawnSecondValue)
      ensures |blocks| == |old(blocks)| + 1 && forall k :: 0 <= k < |old(blocks)| ==> blocks[k] == old(blocks)[k]
      ensures state == old(state) && moveCount == old(moveCount) && history == old(history)
    {
      ghost var before := cells;
      ghost var taken := slots[pick];
      SpawnBlockAtNode(freeNodes[pick], value, taken);
      SpawnOneMore(c0, before, n, spawnFirstValue, spawnSecondValue, taken, Tile(blocks[|old(blocks)|], value, false));
      RemoveAtFacts(slots, pick);
      rest := RemoveAt(freeNodes, pick);
      slots' := RemoveAt(slots, pick);
      forall k | 0 <= k < |slots'|
        ensures slots'[k] < |cells| && cells[slots'[k]].None? && rest[k] == nodes[slots'[k]]
      {
        var o := if k < pick then k else k + 1;
        assert slots'[k] == slots[o] && rest[k] == freeNodes[o];
        assert slots'[k] in slots && slots'[k] != taken;
      }
    }

    /** The free nodes, each with its position in the node list. */
    method FreeList() returns (freeNodes: seq<Node>, ghost slots: seq<nat>)
      requires Linked()
      ensures Undrawn(freeNodes, slots) && |freeNodes| == FreeCount(cells)
    {
      freeNodes := FreeNodes();
      slots := Vacant(cells);
      VacantCount(cells);
      VacantMembers(cells);
      VacantAscending(cells);
    }

    /** Puts min(amount, free) new blocks on distinct free nodes and returns
        the number of free nodes before spawning. The shuffle is the oracle
        `picks`: draw k takes the free node at position picks[k] modulo the
        number still free (0 when picks has no entry k), which is drawing
        without replacement. The coin `coins[k]` chooses between the two
        configured values (the second one when coins has no entry k). */
    method SpawnRandomBlocks(amount: nat, picks: seq<nat>, coins: seq<bool>) returns (freeCount: nat)
      requires Valid()
      modifies this, nodes
      ensures Valid() && nodes == old(nodes)
      ensures freeCount == FreeCount(old(cells))
      ensures SpawnedOn(old(cells), cells, Spawns(amount, freeCount), spawnFirstValue, spawnSecondValue)
      ensures |blocks| == |old(blocks)| + Spawns(amount, freeCount)
      ensures forall k :: 0 <= k < |old(blocks)| ==> blocks[k] == old(blocks)[k]
      ensures state == old(state) && moveCount == old(moveCount) && history == old(history)
    {
      var freeNodes, slots := FreeList();
      freeCount := |freeNodes|;
      var i := 0;
      while i < amount && i < freeCount
        invariant Valid() && nodes == old(nodes) && Undrawn(freeNodes, slots)
        invariant 0 <= i <= freeCount && i <= amount && |freeNodes| == freeCount - i
        invariant SpawnedOn(old(cells), cells, i, spawnFirstValue, spawnSecondValue)
        invariant |blocks| == |old(blocks)| + i && forall k :: 0 <= k < |old(blocks)| ==> blocks[k] == old(blocks)[k]
        invariant state == old(state) && moveCount == old(moveCount) && history == old(history)
      {
        var pick := if i < |picks| then picks[i] % |freeNodes| else 0;
        var randomValue := if i < |coins| && coins[i] then spawnFirstValue else spawnSecondValue;
        freeNodes, slots := Draw(freeNodes, slots, pick, randomValue, old(cells), i);
        i := i + 1;
      }
    }

    /** `_blocks.Any(block => block.CurrentValue >= WinBlockValue)`. */
    method AnyWinBlock() returns (r: bool)
      requires Tracked()
      ensures r <==> HasTileAtLeast(cells, WinBlockValue)
    {
      r := false;
      var j := 0;
      while j < |blocks|
        invariant 0 <= j <= |blocks|
        invariant r <==> exists k :: 0 <= k < j && blocks[k].CurrentValue >= WinBlockValue
      {
        if blocks[j].CurrentValue >= WinBlockValue {
          r := true;
        }
        j := j + 1;
      }
      if r {
        var k :| 0 <= k < |blocks| && blocks[k].CurrentValue >= WinBlockValue;
        assert cells[IndexOf(W, H, blocks[k].CurrentIndex)].value.value >= WinBlockValue;
      } else {
        forall i | 0 <= i < |cells| && cells[i].Some?
          ensures cells[i].value.value < WinBlockValue
        {
          var k :| 0 <= k < |blocks| && blocks[k] == cells[i].value.id;
        }
      }
    }

    /** `_blocks.OrderBy(x).ThenBy(y)`, reversed for up and right. Every block
        sits on the node whose coordinate it records and the node list is in
        (x, y) order, so the occupied nodes read in list order give the sorted
        list. The result is the snapshot of the board; it lists every block of
        `_blocks` once, strictly ordered by coordinate. */
    method OrderBlocks(d: Dir) returns (ordered: seq<Block>)
      requires Linked() && Tracked()
      ensures |ordered| == |Snapshot(cells, d)|
      ensures forall j :: 0 <= j < |ordered| ==> ordered[j] == cells[Snapshot(cells, d)[j]].value.id
      ensures forall b :: b in ordered <==> b in blocks
    {
      var sorted := OccupiedBlocks();
      ordered := if d == Up || d == Right then Reversed(sorted) else sorted;
      SnapshotIds(cells, d, sorted);
      SnapshotBlocks(d, ordered);
    }

    /** The blocks on the nodes, read in node-list order. */
    method OccupiedBlocks() returns (sorted: seq<Block>)
      requires Linked()
      ensures |sorted| == |Occupied(cells)|
      ensures forall k :: 0 <= k < |sorted| ==> sorted[k] == cells[Occupied(cells)[k]].value.id
    {
      sorted := [];
      var i := 0;
      while i < |nodes|
        invariant 0 <= i <= |nodes|
        invariant |sorted| == |Occupied(cells[..i])|
        invariant forall k :: 0 <= k < |sorted| ==> sorted[k] == cells[Occupied(cells[..i])[k]].value.id
      {
        OccupiedNext(cells, i);
        if nodes[i].CurrentBlock != null {
          sorted := sorted + [nodes[i].CurrentBlock];
        }
        i := i + 1;
      }
      assert cells[..|nodes|] == cells;
    }

    /** The snapshot lists exactly the blocks of the list. */
    lemma SnapshotBlocks(d: Dir, ordered: seq<Block>)
      requires Tracked()
      requires |ordered| == |Snapshot(cells, d)|
      requires forall j :: 0 <= j < |ordered| ==> ordered[j] == cells[Snapshot(cells, d)[j]].value.id
      ensures forall b :: b in ordered <==> b in blocks
    {
      var o := Snapshot(cells, d);
      var states := BlockStates();
      forall j | 0 <= j < |ordered| ensures ordered[j] in blocks {
        var p := RosterLookup(W, H, cells, blocks, states, o[j]);
      }
      forall b | b in blocks ensures b in ordered {
        var p :| 0 <= p < |blocks| && blocks[p] == b;
        var i := IndexOf(W, H, states[p].index);
        var j :| 0 <= j < |o| && o[j] == i;
        assert ordered[j] == b;
      }
    }

    /** The snapshot's blocks, read from the heap, come in the order the
        source sorts them: by CurrentIndex x, then y, and reversed for up and
        right. */
    lemma SnapshotBlocksSorted(d: Dir, ordered: seq<Block>)
      requires Tracked()
      requires |ordered| == |Snapshot(cells, d)|
      requires forall j :: 0 <= j < |ordered| ==> ordered[j] == cells[Snapshot(cells, d)[j]].value.id
      ensures forall j, k :: 0 <= j < k < |ordered| ==>
        if d == Up || d == Right then LexLess(ordered[k].CurrentIndex, ordered[j].CurrentIndex)
        else LexLess(ordered[j].CurrentIndex, ordered[k].CurrentIndex)
    {
      var o := Snapshot(cells, d);
      var states := BlockStates();
      forall j | 0 <= j < |ordered| ensures ordered[j].CurrentIndex == PosOf(W, H, o[j]) {
        var p := RosterLookup(W, H, cells, blocks, states, o[j]);
        assert states[p].index == blocks[p].CurrentIndex;
      }
      SnapshotIsLexOrder(W, H, cells, d);
    }

    /** The inner `while (true)` loop of the shift: from the block's node, step
        towards the wall while the next node is empty; stop at the wall or
        short of a block that refuses, or step onto a block that accepts (not
        yet merged, and CanMerge with the mover's value) and report the merge
        and the block absorbed. The result is Slide on the board. */
    method SlideBlock(block: Block, d: Dir) returns (newIndex: Vec, isMerged: bool, destination: Block?)
      requires Linked() && Tracked() && InBounds(W, H, block.CurrentIndex)
      ensures (newIndex, isMerged) == Slide(W, H, cells, block.CurrentValue, block.CurrentIndex, d)
      ensures isMerged ==> newIndex != block.CurrentIndex && cells[IndexOf(W, H, newIndex)].Some? &&
                           destination == cells[IndexOf(W, H, newIndex)].value.id
      ensures !isMerged ==> destination == null
      ensures !isMerged && newIndex != block.CurrentIndex ==> cells[IndexOf(W, H, newIndex)].None?
    {
      newIndex := block.CurrentIndex;
      isMerged := false;
      destination := null;
      while true
        invariant InBounds(W, H, newIndex)
        invariant Slide(W, H, cells, block.CurrentValue, newIndex, d) == Slide(W, H, cells, block.CurrentValue, block.CurrentIndex, d)
        invariant !isMerged && destination == null
        invariant newIndex != block.CurrentIndex ==> cells[IndexOf(W, H, newIndex)].None?
        decreases Dist(W, H, newIndex, d)
      {
        StepTowardsWall(W, H, newIndex, d);
        var nextIndex := Add(newIndex, Delta(d));
        var found, moveTargetNode := TryGetNodeAtIndex(nextIndex);
        if !found {
          break;
        }
        var destinationBlock := moveTargetNode.CurrentBlock;
        if destinationBlock != null {
          ghost var j := RosterLookup(W, H, cells, blocks, BlockStates(), IndexOf(W, H, nextIndex));
          assert BlockStates()[j] == BlockState(blocks[j].CurrentIndex, blocks[j].CurrentValue, blocks[j].IsMerged);
          if !destinationBlock.IsMerged && destinationBlock.CanMerge(block.CurrentValue) {
            isMerged := true;
            destination := destinationBlock;
            newIndex := nextIndex;
          }
          break;
        }
        newIndex := nextIndex;
      }
    }

    /** Node.SetBlock on the two nodes of a step: the node at oldIndex is
        emptied and the node at newIndex takes the block. The board follows:
        the block's entry moves there as `t`. */
    method RelinkNodes(block: Block, oldIndex: Vec, newIndex: Vec, ghost t: Tile<Block>) returns (targetNode: Node)
      requires Linked() && InBounds(W, H, oldIndex) && InBounds(W, H, newIndex) && oldIndex != newIndex && t.id == block
      modifies this, nodes
      ensures Linked() && nodes == old(nodes) && targetNode == nodes[IndexOf(W, H, newIndex)]
      ensures cells == Relocate(old(cells), IndexOf(W, H, oldIndex), IndexOf(W, H, newIndex), t)
      ensures blocks == old(blocks) && BlockStates() == old(BlockStates())
      ensures state == old(state) && moveCount == old(moveCount) && history == old(history)
    {
      ghost var s, i := IndexOf(W, H, oldIndex), IndexOf(W, H, newIndex);
      var oldNode := GetNodeAtIndex(oldIndex);
      var target := GetNodeAtIndex(newIndex);
      forall x | 0 <= x < |nodes| && x != s && x != i
        ensures nodes[x] != oldNode && nodes[x] != target
      {
        assert nodes[x].Index == PosOf(W, H, x);
      }
      oldNode.SetBlock(null);
      target.SetBlock(block);
      cells := Relocate(cells, s, i, t);
      targetNode := target;
    }

    /** Block.SetIndex on the block at entry p of the list: only that entry of
        the list's record changes. */
    method SetBlockIndex(block: Block, index: Vec, ghost p: nat)
      requires p < |blocks| && blocks[p] == block && NoDuplicates(blocks)
      modifies block
      ensures BlockStates() == old(BlockStates())[p := BlockState(index, old(BlockStates())[p].value, old(BlockStates())[p].merged)]
      ensures old(Linked()) ==> Linked()
    {
      block.SetIndex(index);
      forall q | 0 <= q < |blocks| && q != p ensures blocks[q] != block {
        assert blocks[p] == block;
      }
    }

    /** A block that slides onto the empty node at newIndex: the nodes are
        updated at once and the block records its new coordinate. */
    method MoveBlock(block: Block, oldIndex: Vec, newIndex: Vec) returns (targetNode: Node)
      requires Linked() && Tracked() && InBounds(W, H, oldIndex) && InBounds(W, H, newIndex) && oldIndex != newIndex
      requires cells[IndexOf(W, H, oldIndex)].Some? && cells[IndexOf(W, H, oldIndex)].value.id == block
      requires cells[IndexOf(W, H, newIndex)].None?
      modifies this, nodes, block
      ensures Linked() && Tracked() && nodes == old(nodes) && targetNode == nodes[IndexOf(W, H, newIndex)]
      ensures cells == Relocate(old(cells), IndexOf(W, H, oldIndex), IndexOf(W, H, newIndex), old(cells)[IndexOf(W, H, oldIndex)].value)
      ensures blocks == old(blocks) && state == old(state) && moveCount == old(moveCount) && history == old(history)
    {
      ghost var s, i := IndexOf(W, H, oldIndex), IndexOf(W, H, newIndex);
      ghost var t := cells[s].value;
      ghost var states := BlockStates();
      ghost var p := RosterLookup(W, H, cells, blocks, states, s);
      targetNode := RelinkNodes(block, oldIndex, newIndex, t);
      SetBlockIndex(block, newIndex, p);
      RosterMove(W, H, old(cells), blocks, states, s, i, p, t);
    }

    /** Block.IncreaseInternalValue then Block.SetIsMerged(true) on the block
        at entry p of the list. */
    method DoubleAndFlag(block: Block, ghost p: nat)
      requires p < |blocks| && blocks[p] == block && NoDuplicates(blocks)
      modifies block
      ensures BlockStates() == old(BlockStates())[p := BlockState(old(BlockStates())[p].index, 2 * old(BlockStates())[p].value, true)]
      ensures old(Linked()) ==> Linked()
    {
      block.IncreaseInternalValue();
      block.SetIsMerged(true);
      forall q | 0 <= q < |blocks| && q != p ensures blocks[q] != block {
        assert blocks[p] == block;
      }
    }

    /** `_blocks.Remove(destination)` for the block at entry q of the list. */
    method DropBlock(destination: Block, ghost q: nat)
      requires q < |blocks| && blocks[q] == destination && NoDuplicates(blocks)
      modifies this
      ensures blocks == RemoveAt(old(blocks), q) && NoDuplicates(blocks)
      ensures forall b :: b in blocks <==> b in old(blocks) && b != destination
      ensures BlockStates() == RemoveAt(old(BlockStates()), q)
      ensures nodes == old(nodes) && cells == old(cells) && (old(Linked()) ==> Linked())
      ensures state == old(state) && moveCount == old(moveCount) && history == old(history)
    {
      ghost var states := BlockStates();
      RemoveFirstAt(blocks, q);
      RemoveAtFacts(blocks, q);
      ghost var bs := blocks;
      blocks := RemoveFirst(blocks, destination);
      forall r | 0 <= r < |blocks|
        ensures BlockStates()[r] == RemoveAt(states, q)[r]
      {
        assert blocks[r] == bs[if r < q then r else r + 1];
      }
    }

    /** The data changes of a merge: the mover (entry p of the list) doubles
        its value and raises its flag, the absorbed block (entry q) leaves
        `_blocks`, and the mover records the coordinate it ends on. */
    method Absorb(block: Block, destination: Block, newIndex: Vec, ghost p: nat, ghost q: nat)
      requires p < |blocks| && q < |blocks| && p != q && blocks[p] == block && blocks[q] == destination && NoDuplicates(blocks)
      modifies this, block
      ensures blocks == RemoveAt(old(blocks), q) == RemoveFirst(old(blocks), destination) && NoDuplicates(blocks)
      ensures forall b :: b in blocks <==> b in old(blocks) && b != destination
      ensures var p' := if p < q then p else p - 1;
        var mid := RemoveAt(old(BlockStates())[p := BlockState(old(BlockStates())[p].index, 2 * old(BlockStates())[p].value, true)], q);
        p' < |mid| && BlockStates() == mid[p' := BlockState(newIndex, 2 * old(BlockStates())[p].value, true)]
      ensures nodes == old(nodes) && cells == old(cells) && (old(Linked()) ==> Linked())
      ensures state == old(state) && moveCount == old(moveCount) && history == old(history)
    {
      DoubleAndFlag(block, p);
      RemoveFirstAt(blocks, q);
      DropBlock(destination, q);
      SetBlockIndex(block, newIndex, if p < q then p else p - 1);
    }

    /** Absorb, then the nodes updated as for a plain move, the mover taking
        the absorbed block's node. */
    method AbsorbAndRelink(block: Block, destination: Block, oldIndex: Vec, newIndex: Vec, ghost p: nat, ghost q: nat, ghost t: Tile<Block>)
      returns (targetNode: Node)
      requires Linked() && InBounds(W, H, oldIndex) && InBounds(W, H, newIndex) && oldIndex != newIndex && t.id == block
      requires p < |blocks| && q < |blocks| && p != q && blocks[p] == block && blocks[q] == destination && NoDuplicates(blocks)
      modifies this, nodes, block
      ensures Linked() && nodes == old(nodes) && targetNode == nodes[IndexOf(W, H, newIndex)]
      ensures cells == Relocate(old(cells), IndexOf(W, H, oldIndex), IndexOf(W, H, newIndex), t)
      ensures blocks == RemoveAt(old(blocks), q) == RemoveFirst(old(blocks), destination)
      ensures forall b :: b in blocks <==> b in old(blocks) && b != destination
      ensures var p' := if p < q then p else p - 1;
        var mid := RemoveAt(old(BlockStates())[p := BlockState(old(BlockStates())[p].index, 2 * old(BlockStates())[p].value, true)], q);
        p' < |mid| && BlockStates() == mid[p' := BlockState(newIndex, 2 * old(BlockStates())[p].value, true)]
      ensures state == old(state) && moveCount == old(moveCount) && history == old(history)
    {
      Absorb(block, destination, newIndex, p, q);
      targetNode := RelinkNodes(block, oldIndex, newIndex, t);
    }

    /** A merge: the data changes, then the nodes, the mover taking the
        absorbed block's node and recording its new coordinate. */
    method MergeBlock(block: Block, destination: Block, oldIndex: Vec, newIndex: Vec) returns (targetNode: Node)
      requires Linked() && Tracked() && InBounds(W, H, oldIndex) && InBounds(W, H, newIndex) && oldIndex != newIndex
      requires cells[IndexOf(W, H, oldIndex)].Some? && cells[IndexOf(W, H, oldIndex)].value.id == block
      requires cells[IndexOf(W, H, newIndex)].Some? && cells[IndexOf(W, H, newIndex)].value.id == destination
      modifies this, nodes, block
      ensures Linked() && Tracked() && nodes == old(nodes) && targetNode == nodes[IndexOf(W, H, newIndex)]
      ensures cells == Relocate(old(cells), IndexOf(W, H, oldIndex), IndexOf(W, H, newIndex),
                                Tile(block, 2 * old(cells)[IndexOf(W, H, oldIndex)].value.value, true))
      ensures blocks == RemoveFirst(old(blocks), destination)
      ensures forall b :: b in blocks <==> b in old(blocks) && b != destination
      ensures state == old(state) && moveCount == old(moveCount) && history == old(history)
    {
      ghost var s, i := IndexOf(W, H, oldIndex), IndexOf(W, H, newIndex);
      ghost var t := Tile(block, 2 * cells[s].value.value, true);
      ghost var states := BlockStates();
      ghost var p := RosterLookup(W, H, cells, blocks, states, s);
      ghost var q := RosterLookup(W, H, cells, blocks, states, i);
      RosterMergeSteps(W, H, cells, blocks, states, s, i, p, q, t);
      assert PosOf(W, H, i) == newIndex && t.value == 2 * states[p].value;
      targetNode := AbsorbAndRelink(block, destination, oldIndex, newIndex, p, q, t);
    }

    /** The merge branch of the loop body: MergeBlock, and the merge joins
        the list handed to the animation phase. `next` is the pass state after
        this merge. */
    method MergeRecorded(block: Block, destination: Block, oldIndex: Vec, newIndex: Vec, ghost st: PassState<Block>,
                         ghost next: PassState<Block>, moveInfos: seq<BlockMoveInfo>, mergeInfos: seq<BlockMoveInfo>)
      returns (mergeInfos': seq<BlockMoveInfo>)
      requires Linked() && Tracked() && InBounds(W, H, oldIndex) && InBounds(W, H, newIndex) && oldIndex != newIndex
      requires cells[IndexOf(W, H, oldIndex)].Some? && cells[IndexOf(W, H, oldIndex)].value.id == block
      requires cells[IndexOf(W, H, newIndex)].Some? && cells[IndexOf(W, H, newIndex)].value.id == destination
      requires st.cells == cells && Recorded(nodes, moveInfos, mergeInfos, st)
      requires next == PassState(Relocate(cells, IndexOf(W, H, oldIndex), IndexOf(W, H, newIndex),
                                          Tile(block, 2 * cells[IndexOf(W, H, oldIndex)].value.value, true)),
                                 st.moves, st.merges + [Merge(block, destination, IndexOf(W, H, newIndex))])
      modifies this, nodes, block
      ensures Linked() && Tracked() && nodes == old(nodes)
      ensures cells == next.cells && Recorded(nodes, moveInfos, mergeInfos', next)
      ensures state == old(state) && moveCount == old(moveCount) && history == old(history)
    {
      RecordMerge(nodes, moveInfos, mergeInfos, st, next.cells, block, destination, IndexOf(W, H, newIndex));
      var targetNode := MergeBlock(block, destination, oldIndex, newIndex);
      mergeInfos' := mergeInfos + [BlockMoveInfo(targetNode, block, Some(destination))];
    }

    /** The move branch of the loop body: MoveBlock, and the move joins the
        list handed to the animation phase. `next` is the pass state after
        this move. */
    method MoveRecorded(block: Block, oldIndex: Vec, newIndex: Vec, ghost st: PassState<Block>,
                        ghost next: PassState<Block>, moveInfos: seq<BlockMoveInfo>, mergeInfos: seq<BlockMoveInfo>)
      returns (moveInfos': seq<BlockMoveInfo>)
      requires Linked() && Tracked() && InBounds(W, H, oldIndex) && InBounds(W, H, newIndex) && oldIndex != newIndex
      requires cells[IndexOf(W, H, oldIndex)].Some? && cells[IndexOf(W, H, oldIndex)].value.id == block
      requires cells[IndexOf(W, H, newIndex)].None?
      requires st.cells == cells && Recorded(nodes, moveInfos, mergeInfos, st)
      requires next == PassState(Relocate(cells, IndexOf(W, H, oldIndex), IndexOf(W, H, newIndex), cells[IndexOf(W, H, oldIndex)].value),
                                 st.moves + [Move(block, IndexOf(W, H, newIndex))], st.merges)
      modifies this, nodes, block
      ensures Linked() && Tracked() && nodes == old(nodes) && blocks == old(blocks)
      ensures cells == next.cells && Recorded(nodes, moveInfos', mergeInfos, next)
      ensures state == old(state) && moveCount == old(moveCount) && history == old(history)
    {
      RecordMove(nodes, moveInfos, mergeInfos, st, next.cells, block, IndexOf(W, H, newIndex));
      var targetNode := MoveBlock(block, oldIndex, newIndex);
      moveInfos' := moveInfos + [BlockMoveInfo(targetNode, block, None)];
    }

    /** One iteration of the loop over the ordered blocks: the block on node s
        slides, and if it ends elsewhere it moves or merges there and the move
        is recorded. On the board this is Step. */
    method ShiftOne(block: Block, d: Dir, ghost s: nat, ghost st: PassState<Block>,
                    moveInfos: seq<BlockMoveInfo>, mergeInfos: seq<BlockMoveInfo>)
      returns (moveInfos': seq<BlockMoveInfo>, mergeInfos': seq<BlockMoveInfo>)
      requires Linked() && Tracked() && st.cells == cells && s < |cells| && cells[s].Some? && cells[s].value.id == block
      requires Recorded(nodes, moveInfos, mergeInfos, st)
      modifies this, nodes, block
      ensures Linked() && Tracked() && nodes == old(nodes)
      ensures cells == Step(W, H, st, s, d).cells && Recorded(nodes, moveInfos', mergeInfos', Step(W, H, st, s, d))
      ensures state == old(state) && moveCount == old(moveCount) && history == old(history)
    {
      ghost var p := RosterLookup(W, H, cells, blocks, BlockStates(), s);
      var oldIndex := block.CurrentIndex;
      var newIndex, isMerged, destination := SlideBlock(block, d);
      moveInfos', mergeInfos' := RecordSlide(block, d, s, st, oldIndex, newIndex, isMerged, destination, moveInfos, mergeInfos);
    }

    /** The rest of an iteration once the slide is known: nothing when the
        block stays, else the merge or the move and its record. */
    method RecordSlide(block: Block, d: Dir, ghost s: nat, ghost st: PassState<Block>,
                       oldIndex: Vec, newIndex: Vec, isMerged: bool, destination: Block?,
                       moveInfos: seq<BlockMoveInfo>, mergeInfos: seq<BlockMoveInfo>)
      returns (moveInfos': seq<BlockMoveInfo>, mergeInfos': seq<BlockMoveInfo>)
      requires Linked() && Tracked() && st.cells == cells && s < |cells| && cells[s].Some? && cells[s].value.id == block
      requires Recorded(nodes, moveInfos, mergeInfos, st) && oldIndex == PosOf(W, H, s)
      requires (newIndex, isMerged) == Slide(W, H, cells, cells[s].value.value, oldIndex, d)
      requires isMerged ==> newIndex != oldIndex && cells[IndexOf(W, H, newIndex)].Some? &&
                            destination == cells[IndexOf(W, H, newIndex)].value.id
      requires !isMerged && newIndex != oldIndex ==> cells[IndexOf(W, H, newIndex)].None?
      modifies this, nodes, block
      ensures Linked() && Tracked() && nodes == old(nodes)
      ensures cells == Step(W, H, st, s, d).cells && Recorded(nodes, moveInfos', mergeInfos', Step(W, H, st, s, d))
      ensures state == old(state) && moveCount == old(moveCount) && history == old(history)
    {
      StepShape(W, H, st, s, d);
      moveInfos', mergeInfos' := moveInfos, mergeInfos;
      if newIndex != oldIndex {
        if isMerged {
          mergeInfos' := MergeRecorded(block, destination, oldIndex, newIndex, st, Step(W, H, st, s, d), moveInfos, mergeInfos);
        } else {
          moveInfos' := MoveRecorded(block, oldIndex, newIndex, st, Step(W, H, st, s, d), moveInfos, mergeInfos);
        }
      }
    }

    /** The heap during the foreach, after the first k blocks of the ordered
        list have slid: it matches the pass over the first k snapshot entries,
        and the two lists are that pass's record. */
    ghost predicate Passing(c0: Cells<Block>, d: Dir, k: nat, moveInfos: seq<BlockMoveInfo>, mergeInfos: seq<BlockMoveInfo>)
      reads this, nodes, blocks
    {
      && Shaped(W, H, c0) && k <= |Snapshot(c0, d)|
      && Linked() && Tracked()
      && cells == PassOver(W, H, PassState(c0, [], []), Snapshot(c0, d)[..k], d).cells
      && Recorded(nodes, moveInfos, mergeInfos, PassOver(W, H, PassState(c0, [], []), Snapshot(c0, d)[..k], d))
    }

    /** One turn of the foreach: block k of the ordered list, which has not
        moved yet, slides. */
    method PassNext(d: Dir, ordered: seq<Block>, k: nat, ghost c0: Cells<Block>,
                    moveInfos: seq<BlockMoveInfo>, mergeInfos: seq<BlockMoveInfo>)
      returns (moveInfos': seq<BlockMoveInfo>, mergeInfos': seq<BlockMoveInfo>)
      requires AtRest(W, H, c0) && k < |Snapshot(c0, d)| == |ordered|
      requires ordered[k] == c0[Snapshot(c0, d)[k]].value.id
      requires Passing(c0, d, k, moveInfos, mergeInfos)
      modifies this, nodes, ordered[k]
      ensures Passing(c0, d, k + 1, moveInfos', mergeInfos') && nodes == old(nodes)
      ensures state == old(state) && moveCount == old(moveCount) && history == old(history)
    {
      ghost var st := PassOver(W, H, PassState(c0, [], []), Snapshot(c0, d)[..k], d);
      SnapshotBlockInPlace(W, H, c0, d, k);
      PassOverNext(W, H, c0, d, k);
      moveInfos', mergeInfos' := ShiftOne(ordered[k], d, Snapshot(c0, d)[k], st, moveInfos, mergeInfos);
    }

    /** The foreach of ShiftBlocksAsync over the ordered list: each block
        slides, and the nodes, the list and the mover's fields are updated at
        once. The board afterwards is Pass of the board before, and the two
        lists are the pass's moves and merges. */
    method RunPass(d: Dir) returns (moveInfos: seq<BlockMoveInfo>, mergeInfos: seq<BlockMoveInfo>)
      requires Valid()
      modifies this, nodes, blocks
      ensures Passing(old(cells), d, |Snapshot(old(cells), d)|, moveInfos, mergeInfos) && nodes == old(nodes)
      ensures state == old(state) && moveCount == old(moveCount) && history == old(history)
    {
      ghost var c0 := cells;
      assert AtRest(W, H, c0);
      var orderedBlocks := OrderBlocks(d);
      moveInfos, mergeInfos := [], [];
      assert Snapshot(c0, d)[..0] == [];
      for k := 0 to |orderedBlocks|
        invariant Passing(c0, d, k, moveInfos, mergeInfos) && nodes == old(nodes)
        invariant state == old(state) && moveCount == old(moveCount) && history == old(history)
      {
        moveInfos, mergeInfos := PassNext(d, orderedBlocks, k, c0, moveInfos, mergeInfos);
      }
    }

    /** The synchronous part of ShiftBlocksAsync, up to the MovingBlocks
        state: the pass, which leaves the board as Pass of the board before
        and creates no block. */
    method ShiftPass(d: Dir) returns (moveInfos: seq<BlockMoveInfo>, mergeInfos: seq<BlockMoveInfo>)
      requires Valid()
      modifies this, nodes, blocks
      ensures Linked() && Tracked() && nodes == old(nodes)
      ensures cells == Pass(W, H, old(cells), d).cells
      ensures forall b :: b in blocks ==> b in old(blocks)
      ensures Recorded(nodes, moveInfos, mergeInfos, Pass(W, H, old(cells), d))
      ensures state == old(state) && moveCount == old(moveCount) && history == old(history)
    {
      ghost var c0, ids, states := cells, blocks, BlockStates();
      moveInfos, mergeInfos := RunPass(d);
      assert Snapshot(c0, d)[..|Snapshot(c0, d)|] == Snapshot(c0, d);
      PassCreatesNoBlock(W, H, c0, d, ids, states, blocks, BlockStates());
    }

    /** Block.SetIsMerged(false) on the block at entry p of the list. */
    method ClearBlockFlag(block: Block, ghost p: nat)
      requires p < |blocks| && blocks[p] == block && NoDuplicates(blocks)
      modifies block
      ensures BlockStates() == old(BlockStates())[p := BlockState(old(BlockStates())[p].index, old(BlockStates())[p].value, false)]
      ensures old(Linked()) ==> Linked()
    {
      block.SetIsMerged(false);
      forall q | 0 <= q < |blocks| && q != p ensures blocks[q] != block {
        assert blocks[p] == block;
      }
    }

    /** One step of the flag reset: entry j of `_blocks` loses its flag, and
        so does its tile on the board; nothing else changes. */
    method LowerFlag(j: nat)
      requires Linked() && Tracked() && j < |blocks|
      modifies this, blocks[j]
      ensures Linked() && Tracked() && nodes == old(nodes) && blocks == old(blocks)
      ensures BlockStates() == old(BlockStates())[j := BlockState(old(BlockStates())[j].index, old(BlockStates())[j].value, false)]
      ensures var i := IndexOf(W, H, old(BlockStates())[j].index);
        i < |old(cells)| && old(cells)[i].Some? &&
        cells == old(cells)[i := Some(Tile(old(cells)[i].value.id, old(cells)[i].value.value, false))]
      ensures state == old(state) && moveCount == old(moveCount) && history == old(history)
    {
      ghost var states := BlockStates();
      ghost var i := IndexOf(W, H, states[j].index);
      ghost var states' := states[j := BlockState(states[j].index, states[j].value, false)];
      RosterLowerFlag(W, H, cells, blocks, states, j);
      ClearBlockFlag(blocks[j], j);
      cells := cells[i := Some(Tile(blocks[j], states[j].value, false))];
      assert BlockStates() == states';
    }

    /** The flag reset after the animations: every block of `_blocks` gets
        IsMerged false, which on the board is ClearFlags. */
    method ResetMergeFlags()
      requires Linked() && Tracked()
      modifies this, blocks
      ensures Linked() && Tracked() && NoFlags(cells)
      ensures cells == ClearFlags(old(cells))
      ensures nodes == old(nodes) && blocks == old(blocks)
      ensures state == old(state) && moveCount == old(moveCount) && history == old(history)
    {
      ghost var c0 := cells;
      for j := 0 to |blocks|
        invariant Linked() && Tracked() && nodes == old(nodes) && blocks == old(blocks)
        invariant |cells| == |c0|
        invariant forall x :: 0 <= x < |c0| ==> cells[x].Some? == c0[x].Some?
        invariant forall x :: 0 <= x < |c0| && c0[x].Some? ==>
          cells[x].value.id == c0[x].value.id && cells[x].value.value == c0[x].value.value
        invariant forall q :: 0 <= q < j ==> !BlockStates()[q].merged
        invariant state == old(state) && moveCount == old(moveCount) && history == old(history)
      {
        LowerFlag(j);
      }
      RosterFlags(W, H, cells, blocks, BlockStates());
      assert cells == ClearFlags(c0);
    }

    /** Enters state s and runs its entry action. Initializing builds the grid
        and goes on to SpawnBlocks; SpawnBlocks spawns and goes on to the
        verdict; WaitingInput and MovingBlocks do nothing; Win and Lose only
        show the result. The oracle `picks`, `coins` stands for the random
        draws of the spawn. */
    method ChangeState(s: State, picks: seq<nat>, coins: seq<bool>)
      requires s == Initializing ==> nodes == [] && blocks == [] && cells == [] && moveCount >= 0
      requires s == SpawnBlocks ==> Valid()
      modifies this, nodes
      decreases Rank(s)
      ensures moveCount == old(moveCount)
      ensures s == Initializing ==>
        && Valid() && |nodes| == W * H
        && SpawnTurn(EmptyCells(W * H), cells, moveCount, spawnFirstValue, spawnSecondValue, state)
        && history == old(history) + [Initializing, SpawnBlocks, state]
      ensures s == SpawnBlocks ==>
        && Valid() && nodes == old(nodes)
        && SpawnTurn(old(cells), cells, moveCount, spawnFirstValue, spawnSecondValue, state)
        && history == old(history) + [SpawnBlocks, state]
      ensures s != Initializing && s != SpawnBlocks ==>
        && state == s && history == old(history) + [s]
        && nodes == old(nodes) && blocks == old(blocks) && cells == old(cells) && unchanged(nodes)
        && (old(Linked()) ==> Linked()) && (old(Tracked()) ==> Tracked()) && (old(Valid()) ==> Valid())
    {
      state := s;
      history := history + [s];
      if s == Initializing {
        InitializeGame(picks, coins);
      } else if s == SpawnBlocks {
        SpawnAndJudge(picks, coins);
      }
    }

    /** The entry action of SpawnBlocks: spawn, then go to Win when a block
        reached the winning value, else to Lose when at most one node was
        free before the spawn, else to WaitingInput. */
    method SpawnAndJudge(picks: seq<nat>, coins: seq<bool>)
      requires Valid()
      modifies this, nodes
      decreases 1
      ensures Valid() && nodes == old(nodes) && moveCount == old(moveCount)
      ensures SpawnTurn(old(cells), cells, moveCount, spawnFirstValue, spawnSecondValue, state)
      ensures history == old(history) + [state]
    {
      var next := SpawnForTurn(picks, coins);
      ChangeState(next, picks, coins);
    }

    /** The spawn and the verdict of SpawnBlocks, before the next state is
        entered. */
    method SpawnForTurn(picks: seq<nat>, coins: seq<bool>) returns (next: State)
      requires Valid()
      modifies this, nodes
      ensures Valid() && nodes == old(nodes) && moveCount == old(moveCount)
      ensures SpawnTurn(old(cells), cells, moveCount, spawnFirstValue, spawnSecondValue, next) && Rank(next) == 0
      ensures state == old(state) && history == old(history)
    {
      var freeNodeCount := SpawnRandomBlocks(SpawnAmount(moveCount), picks, coins);
      var anyWinBlock := AnyWinBlock();
      next := if anyWinBlock then Win else if freeNodeCount <= 1 then Lose else WaitingInput;
      assert next == Verdict(cells, freeNodeCount);
    }

    /** Builds the grid on an empty manager, then enters SpawnBlocks. */
    method InitializeGame(picks: seq<nat>, coins: seq<bool>)
      requires nodes == [] && blocks == [] && cells == [] && moveCount >= 0
      modifies this
      decreases 3
      ensures Valid() && |nodes| == W * H && moveCount == old(moveCount)
      ensures SpawnTurn(EmptyCells(W * H), cells, moveCount, spawnFirstValue, spawnSecondValue, state)
      ensures history == old(history) + [SpawnBlocks, state]
    {
      Initialize();
      assert cells == EmptyCells(W * H);
      EmptyBoard(cells);
      ChangeState(SpawnBlocks, picks, coins);
    }

    /** The game's start: enter Initializing on a manager fresh from its
        constructor. */
    method Start(picks: seq<nat>, coins: seq<bool>)
      requires nodes == [] && blocks == [] && cells == [] && moveCount == 0
      modifies this
      ensures Valid() && |nodes| == W * H && moveCount == 0
      ensures SpawnTurn(EmptyCells(W * H), cells, 0, spawnFirstValue, spawnSecondValue, state)
      ensures history == old(history) + [Initializing, SpawnBlocks, state]
    {
      ChangeState(Initializing, picks, coins);
    }

    /** One accepted move: the move counter goes up by one, the synchronous
        pass runs, the state is MovingBlocks while the animations play, the
        flags are reset and SpawnBlocks follows, whether or not a block
        moved. */
    method ShiftBlocksAsync(d: Dir, picks: seq<nat>, coins: seq<bool>)
      requires Valid()
      modifies this, nodes, blocks
      ensures Valid() && nodes == old(nodes) && moveCount == old(moveCount) + 1
      ensures SpawnTurn(Shift(W, H, old(cells), d), cells, moveCount, spawnFirstValue, spawnSecondValue, state)
      ensures history == old(history) + [MovingBlocks, SpawnBlocks, state]
    {
      moveCount := moveCount + 1;
      ShiftAndSettle(d, picks, coins);
      ghost var h := history;
      ChangeState(SpawnBlocks, picks, coins);
      HistoryGrows(old(history), h, history, MovingBlocks, SpawnBlocks, state);
    }

    /** ShiftBlocksAsync up to the flag reset: the pass, the MovingBlocks
        state, and the reset once the animations are over. The board is then
        Shift of the board before. */
    method ShiftAndSettle(d: Dir, picks: seq<nat>, coins: seq<bool>)
      requires Valid()
      modifies this, nodes, blocks
      ensures Valid() && nodes == old(nodes) && moveCount == old(moveCount)
      ensures cells == Shift(W, H, old(cells), d)
      ensures history == old(history) + [MovingBlocks]
    {
      var moveInfos, mergeInfos := ShiftPass(d);
      ghost var passed := cells;
      Settle(picks, coins);
      assert cells == ClearFlags(passed);
    }

    /** MovingBlocks while the animations play, then the flag reset. */
    method Settle(picks: seq<nat>, coins: seq<bool>)
      requires Linked() && Tracked() && moveCount >= 0
      modifies this, nodes, blocks
      ensures Valid() && nodes == old(nodes) && moveCount == old(moveCount)
      ensures cells == ClearFlags(old(cells))
      ensures history == old(history) + [MovingBlocks]
    {
      ChangeState(MovingBlocks, picks, coins);
      ResetMergeFlags();
    }

    /** The guard of Update: a direction key is acted on only in
        WaitingInput; otherwise, or with no key, nothing changes. */
    method Update(input: Option<Dir>, picks: seq<nat>, coins: seq<bool>)
      requires state == WaitingInput ==> Valid()
      modifies this, nodes, blocks
      ensures old(state) != WaitingInput || input.None? ==> unchanged(this) && unchanged(nodes) && unchanged(blocks)
      ensures old(state) == WaitingInput && input.Some? ==>
        && Valid() && nodes == old(nodes) && moveCount == old(moveCount) + 1
        && SpawnTurn(Shift(W, H, old(cells), input.value), cells, moveCount, spawnFirstValue, spawnSecondValue, state)
        && history == old(history) + [MovingBlocks, SpawnBlocks, state]
    {
      if state != WaitingInput {
        return;
      }
      if input.Some? {
        ShiftBlocksAsync(input.value, picks, coins);
      }
    }
  }
}
