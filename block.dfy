/** The game state of one block (Block.cs): its value, the node it sits on and
    whether it has already absorbed another block during the current shift.
    The sprite, the text and the movement animation are not part of it. */
module Blocks {
  import opened Geometry

  /** A block holding this value or more never accepts a merge. */
  const MergeCap := 2048

  /** Block.CanMerge on plain values: does a block holding `current` accept a
      block holding `value`? */
  predicate CanMergeValue(current: int, value: int): (b: bool)
    ensures b ==> current == value && current < MergeCap
  {
    if current >= MergeCap then false else current == value
  }

  /** Both directions of the merge rule, and the cap that overrides equality. */
  lemma CanMergeRule(current: int, value: int)
    ensures CanMergeValue(current, value) <==> current < MergeCap && current == value
    ensures current >= MergeCap ==> !CanMergeValue(current, value)
  {}

  class Block {
    var CurrentIndex: Vec
    var CurrentValue: int
    var IsMerged: bool

    /** A block as instantiated from the prefab: every field at its default. */
    constructor ()
      ensures CurrentIndex == Vec(0, 0) && CurrentValue == 0 && !IsMerged
    {
      CurrentIndex := Vec(0, 0);
      CurrentValue := 0;
      IsMerged := false;
    }

    /** The value part of SetData: the block takes the value of its block type. */
    method SetData(value: int)
      modifies this
      ensures CurrentValue == value
      ensures CurrentIndex == old(CurrentIndex) && IsMerged == old(IsMerged)
    {
      CurrentValue := value;
    }

    /** Doubles the value; nothing else changes. */
    method IncreaseInternalValue()
      modifies this
      ensures CurrentValue == 2 * old(CurrentValue)
      ensures CurrentIndex == old(CurrentIndex) && IsMerged == old(IsMerged)
    {
      CurrentValue := CurrentValue * 2;
    }

    method SetIndex(index: Vec)
      modifies this
      ensures CurrentIndex == index
      ensures CurrentValue == old(CurrentValue) && IsMerged == old(IsMerged)
    {
      CurrentIndex := index;
    }

    method SetIsMerged(isMerged: bool)
      modifies this
      ensures IsMerged == isMerged
      ensures CurrentIndex == old(CurrentIndex) && CurrentValue == old(CurrentValue)
    {
      IsMerged := isMerged;
    }

    /** Whether this block accepts a block holding `value`. It reads the block
        and changes nothing. */
    function CanMerge(value: int): (r: bool)
      reads this
      ensures r <==> CurrentValue < MergeCap && CurrentValue == value
      ensures CurrentValue >= MergeCap ==> !r
    {
      CanMergeValue(CurrentValue, value)
    }
  }
}
