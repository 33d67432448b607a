/** One cell of the grid (Node.cs): its coordinate and the block on it, if any.
    The world position and the debug label are not part of it. */
module Nodes {
  import opened Geometry
  import opened Blocks

  class Node {
    var CurrentBlock: Block?
    var Index: Vec

    /** A node as instantiated from the prefab: empty, at the default index. */
    constructor ()
      ensures CurrentBlock == null && Index == Vec(0, 0)
    {
      CurrentBlock := null;
      Index := Vec(0, 0);
    }

    /** Sets the coordinate and leaves the block reference alone, so a node
        fresh from the prefab stays empty. */
    method Initialize(x: int, y: int)
      modifies this
      ensures Index == Vec(x, y)
      ensures CurrentBlock == old(CurrentBlock)
    {
      Index := Vec(x, y);
    }

    /** Puts a block on the node, or empties it when given null. */
    method SetBlock(block: Block?)
      modifies this
      ensures CurrentBlock == block
      ensures Index == old(Index)
    {
      CurrentBlock := block;
    }
  }
}
