/** The board as a value: one entry per node, in node-list order, each empty or
    holding a block (its identity, value and merge flag). On it this module
    defines the shift pass of GameManager.ShiftBlocksAsync as a function, the
    spawn step as a relation, and proves what a shift keeps and what it cannot
    do. Block identities are a type parameter; GameManager instantiates it
    with its Block objects. */
module Board {
  import opened Geometry
  import opened Blocks

  datatype Option<T> = None | Some(value: T)

  /** What a node holds: a block's identity, its value and its merge flag. */
  datatype Tile<Id> = Tile(id: Id, value: int, merged: bool)

  /** One entry per node, the node at (x, y) at position x * h + y. */
  type Cells<Id> = seq<Option<Tile<Id>>>

  /** A block that moved onto the empty node at position `target`. */
  datatype Move<Id> = Move(block: Id, target: nat)

  /** A block that moved onto the node at `target` and absorbed the block there. */
  datatype Merge<Id> = Merge(block: Id, absorbed: Id, target: nat)

  /** The board part way through a shift, with the moves and merges so far. */
  datatype PassState<Id> = PassState(cells: Cells<Id>, moves: seq<Move<Id>>, merges: seq<Merge<Id>>)

  predicate Shaped<Id(==)>(w: int, h: int, c: Cells<Id>) {
    w > 0 && h > 0 && |c| == w * h
  }

  // ---------------------------------------------------------------------
  // Sums and counts

  function CellValue<Id(==)>(o: Option<Tile<Id>>): int {
    match o
    case None => 0
    case Some(t) => t.value
  }

  /** Sum of all block values on the board. */
  function Total<Id(==)>(c: Cells<Id>): int {
    if |c| == 0 then 0 else Total(c[..|c| - 1]) + CellValue(c[|c| - 1])
  }

  /** Number of occupied nodes. */
  function Occupancy<Id(==)>(c: Cells<Id>): (n: nat)
    ensures n <= |c|
  {
    if |c| == 0 then 0 else Occupancy(c[..|c| - 1]) + (if c[|c| - 1].Some? then 1 else 0)
  }

  /** Number of empty nodes. */
  function FreeCount<Id(==)>(c: Cells<Id>): nat {
    |c| - Occupancy(c)
  }

  lemma {:induction false} TotalUpdate<Id>(c: Cells<Id>, i: int, o: Option<Tile<Id>>)
    requires 0 <= i < |c|
    ensures Total(c[i := o]) == Total(c) - CellValue(c[i]) + CellValue(o)
  {
    var n := |c|;
    if i == n - 1 {
      assert c[i := o][..n - 1] == c[..n - 1];
    } else {
      assert c[i := o][..n - 1] == c[..n - 1][i := o];
      TotalUpdate(c[..n - 1], i, o);
    }
  }

  lemma {:induction false} OccupancyUpdate<Id>(c: Cells<Id>, i: int, o: Option<Tile<Id>>)
    requires 0 <= i < |c|
    ensures Occupancy(c[i := o]) == Occupancy(c) - (if c[i].Some? then 1 else 0) + (if o.Some? then 1 else 0)
  {
    var n := |c|;
    if i == n - 1 {
      assert c[i := o][..n - 1] == c[..n - 1];
    } else {
      assert c[i := o][..n - 1] == c[..n - 1][i := o];
      OccupancyUpdate(c[..n - 1], i, o);
    }
  }

  /** Boards that agree cell by cell on occupancy and value agree on both totals. */
  lemma {:induction false} SameShapeSameTotals<Id>(a: Cells<Id>, b: Cells<Id>)
    requires |a| == |b|
    requires forall i :: 0 <= i < |a| ==> a[i].Some? == b[i].Some? && CellValue(a[i]) == CellValue(b[i])
    ensures Total(a) == Total(b) && Occupancy(a) == Occupancy(b)
  {
    if |a| > 0 {
      SameShapeSameTotals(a[..|a| - 1], b[..|b| - 1]);
    }
  }

  /** An empty board has no blocks. */
  lemma {:induction false} EmptyBoard<Id>(c: Cells<Id>)
    requires forall i :: 0 <= i < |c| ==> c[i].None?
    ensures Occupancy(c) == 0 && Total(c) == 0
  {
    if |c| > 0 {
      EmptyBoard(c[..|c| - 1]);
    }
  }

  // ---------------------------------------------------------------------
  // Identities and flags

  /** No block sits on two nodes. */
  predicate DistinctIds<Id(==)>(c: Cells<Id>) {
    forall i, j :: 0 <= i < |c| && 0 <= j < |c| && c[i].Some? && c[j].Some? && c[i].value.id == c[j].value.id ==> i == j
  }

  predicate NoFlags<Id(==)>(c: Cells<Id>) {
    forall i :: 0 <= i < |c| && c[i].Some? ==> !c[i].value.merged
  }

  /** Some block has reached the winning value. */
  predicate HasTileAtLeast<Id(==)>(c: Cells<Id>, limit: int) {
    exists i :: 0 <= i < |c| && c[i].Some? && c[i].value.value >= limit
  }

  /** No block takes part in two merges of the list, as the absorbing block or
      as the absorbed one, and no block absorbs itself. */
  predicate NoDoubleMerge<Id(==)>(ms: seq<Merge<Id>>) {
    forall e, f :: 0 <= e < |ms| && 0 <= f < |ms| ==>
      ms[e].block != ms[e].absorbed &&
      (e != f ==> ms[e].block != ms[f].block && ms[e].block != ms[f].absorbed && ms[e].absorbed != ms[f].absorbed)
  }

  /** The merge part of a flag reset: every flag goes down, nothing else changes. */
  function ClearFlags<Id(==)>(c: Cells<Id>): (r: Cells<Id>)
    ensures |r| == |c| && NoFlags(r)
    ensures forall i :: 0 <= i < |c| ==> r[i].Some? == c[i].Some?
    ensures forall i :: 0 <= i < |c| && c[i].Some? ==> r[i].value.id == c[i].value.id && r[i].value.value == c[i].value.value
  {
    seq(|c|, i requires 0 <= i < |c| =>
      match c[i]
      case None => None
      case Some(t) => Some(Tile(t.id, t.value, false)))
  }

  // ---------------------------------------------------------------------
  // The snapshot: blocks ordered by x, then by y, reversed for up and right

  /** Positions of the occupied nodes, ascending. */
  function Occupied<Id(==)>(c: Cells<Id>): (r: seq<nat>)
    ensures forall k :: 0 <= k < |r| ==> r[k] < |c| && c[r[k]].Some?
  {
    if |c| == 0 then [] else Occupied(c[..|c| - 1]) + (if c[|c| - 1].Some? then [|c| - 1] else [])
  }

  /** Occupied lists as many nodes as hold a block, and all of them. */
  lemma {:induction false} OccupiedMembers<Id>(c: Cells<Id>)
    ensures |Occupied(c)| == Occupancy(c)
    ensures forall i :: 0 <= i < |c| && c[i].Some? ==> i in Occupied(c)
  {
    if |c| > 0 {
      var n := |c| - 1;
      OccupiedMembers(c[..n]);
      assert Occupied(c) == Occupied(c[..n]) + (if c[n].Some? then [n] else []);
      forall i | 0 <= i < n && c[i].Some? ensures i in Occupied(c) {
        assert c[..n][i] == c[i];
      }
    }
  }

  lemma {:induction false} OccupiedAscending<Id>(c: Cells<Id>)
    ensures forall j, k :: 0 <= j < k < |Occupied(c)| ==> Occupied(c)[j] < Occupied(c)[k]
  {
    if |c| > 0 {
      OccupiedAscending(c[..|c| - 1]);
    }
  }

  /** Reading one more node extends Occupied by that node if it is occupied. */
  lemma OccupiedNext<Id>(c: Cells<Id>, i: nat)
    requires i < |c|
    ensures Occupied(c[..i + 1]) == Occupied(c[..i]) + (if c[i].Some? then [i] else [])
  {
    assert c[..i + 1][..i] == c[..i];
  }

  /** Positions of the empty nodes, ascending: the free nodes that
      `_nodes.Where(node => node.CurrentBlock == null)` lists. */
  function Vacant<Id(==)>(c: Cells<Id>): (r: seq<nat>)
    ensures forall k :: 0 <= k < |r| ==> r[k] < |c|
  {
    if |c| == 0 then [] else Vacant(c[..|c| - 1]) + (if c[|c| - 1].None? then [|c| - 1] else [])
  }

  /** Vacant lists as many nodes as are free. */
  lemma {:induction false} VacantCount<Id>(c: Cells<Id>)
    ensures |Vacant(c)| == FreeCount(c)
  {
    if |c| > 0 {
      VacantCount(c[..|c| - 1]);
    }
  }

  /** Vacant lists the empty nodes and nothing else. */
  lemma {:induction false} VacantMembers<Id>(c: Cells<Id>)
    ensures forall k :: 0 <= k < |Vacant(c)| ==> c[Vacant(c)[k]].None?
    ensures forall i :: 0 <= i < |c| && c[i].None? ==> i in Vacant(c)
  {
    if |c| > 0 {
      var n := |c| - 1;
      VacantMembers(c[..n]);
      assert Vacant(c) == Vacant(c[..n]) + (if c[n].None? then [n] else []);
      forall i | 0 <= i < n && c[i].None? ensures i in Vacant(c) {
        assert c[..n][i] == c[i];
      }
    }
  }

  /** Vacant is strictly ascending. */
  lemma {:induction false} VacantAscending<Id>(c: Cells<Id>)
    ensures forall j, k :: 0 <= j < k < |Vacant(c)| ==> Vacant(c)[j] < Vacant(c)[k]
  {
    if |c| > 0 {
      VacantAscending(c[..|c| - 1]);
    }
  }

  /** Reading one more node extends Vacant by that node if it is empty. */
  lemma VacantNext<Id>(c: Cells<Id>, i: nat)
    requires i < |c|
    ensures Vacant(c[..i + 1]) == Vacant(c[..i]) + (if c[i].None? then [i] else [])
  {
    assert c[..i + 1][..i] == c[..i];
  }

  /** List.Reverse. */
  function Reversed<T>(s: seq<T>): (r: seq<T>)
    ensures |r| == |s|
  {
    seq(|s|, k requires 0 <= k < |s| => s[|s| - 1 - k])
  }

  lemma ReversedMembers<T>(s: seq<T>)
    ensures forall x :: x in Reversed(s) <==> x in s
  {
    var r := Reversed(s);
    forall x | x in s ensures x in r {
      var k :| 0 <= k < |s| && s[k] == x;
      assert r[|s| - 1 - k] == x;
    }
  }

  /** The traversal order of a shift: every occupied node exactly once, strictly
      ordered by Before. */
  function Snapshot<Id(==)>(c: Cells<Id>, d: Dir): (r: seq<nat>)
    ensures |r| == Occupancy(c)
    ensures forall k :: 0 <= k < |r| ==> r[k] < |c| && c[r[k]].Some?
    ensures forall i :: 0 <= i < |c| && c[i].Some? ==> i in r
  {
    var o := Occupied(c);
    OccupiedMembers(c);
    if d == Up || d == Right then
      ReversedMembers(o);
      Reversed(o)
    else
      o
  }

  /** The snapshot is strictly ordered by Before. */
  lemma SnapshotOrdered<Id>(c: Cells<Id>, d: Dir)
    ensures TraversalOrder(c, d, Snapshot(c, d))
  {
    OccupiedAscending(c);
  }

  /** Reversing a list of positions and the list of their blocks keeps them
      aligned. */
  lemma ReversedIds<Id>(c: Cells<Id>, o: seq<nat>, ids: seq<Id>)
    requires |ids| == |o|
    requires forall k :: 0 <= k < |o| ==> o[k] < |c| && c[o[k]].Some? && ids[k] == c[o[k]].value.id
    ensures forall j :: 0 <= j < |o| ==> Reversed(o)[j] < |c| && c[Reversed(o)[j]].Some? && Reversed(ids)[j] == c[Reversed(o)[j]].value.id
  {
    var r, rids := Reversed(o), Reversed(ids);
    forall j | 0 <= j < |o| ensures r[j] < |c| && c[r[j]].Some? && rids[j] == c[r[j]].value.id {
      var k := |o| - 1 - j;
      assert rids[j] == ids[k] && r[j] == o[k];
    }
  }

  /** The blocks of the occupied nodes in list order, reversed for up and
      right, are the blocks of the snapshot. */
  lemma SnapshotIds<Id>(c: Cells<Id>, d: Dir, sorted: seq<Id>)
    requires |sorted| == |Occupied(c)|
    requires forall k :: 0 <= k < |sorted| ==> sorted[k] == c[Occupied(c)[k]].value.id
    ensures var ordered := if d == Up || d == Right then Reversed(sorted) else sorted;
      |ordered| == |Snapshot(c, d)| &&
      forall j :: 0 <= j < |ordered| ==> ordered[j] == c[Snapshot(c, d)[j]].value.id
  {
    if d == Up || d == Right {
      ReversedIds(c, Occupied(c), sorted);
    }
  }

  /** The snapshot is the order of OrderBy(x).ThenBy(y) on the blocks'
      coordinates, reversed for up and right. */
  lemma SnapshotIsLexOrder<Id>(w: int, h: int, c: Cells<Id>, d: Dir)
    requires Shaped(w, h, c)
    ensures var o := Snapshot(c, d);
      forall j, k :: 0 <= j < k < |o| ==>
        if d == Up || d == Right then LexLess(PosOf(w, h, o[k]), PosOf(w, h, o[j]))
        else LexLess(PosOf(w, h, o[j]), PosOf(w, h, o[k]))
  {
    var o := Snapshot(c, d);
    SnapshotOrdered(c, d);
    forall j, k | 0 <= j < k < |o|
      ensures if d == Up || d == Right then LexLess(PosOf(w, h, o[k]), PosOf(w, h, o[j]))
              else LexLess(PosOf(w, h, o[j]), PosOf(w, h, o[k]))
    {
      IndexOrderIsLex(w, h, PosOf(w, h, o[j]), PosOf(w, h, o[k]));
      IndexOrderIsLex(w, h, PosOf(w, h, o[k]), PosOf(w, h, o[j]));
    }
  }

  // ---------------------------------------------------------------------
  // Sliding one block

  /** The merge test of the shift: the destination block has not merged yet
      and Block.CanMerge accepts the moving block's value. */
  predicate Accepts<Id(==)>(dest: Option<Tile<Id>>, value: int): (b: bool)
    ensures b ==> dest.Some? && !dest.value.merged && dest.value.value == value && dest.value.value < MergeCap
  {
    dest.Some? && !dest.value.merged && CanMergeValue(dest.value.value, value)
  }

  /** Why a slide stopped without merging at q: the wall, or an occupied node
      that does not accept the block. */
  predicate Blocked<Id(==)>(w: int, h: int, c: Cells<Id>, value: int, q: Vec, d: Dir)
    requires Shaped(w, h, c)
  {
    var next := Add(q, Delta(d));
    !InBounds(w, h, next) || (c[IndexOf(w, h, next)].Some? && !Accepts(c[IndexOf(w, h, next)], value))
  }

  /** The inner loop of the shift: a block of the given value, starting at p,
      advances cell by cell; it returns where the block ends and whether it
      merged there. */
  function Slide<Id(==)>(w: int, h: int, c: Cells<Id>, value: int, p: Vec, d: Dir): (r: (Vec, bool))
    requires Shaped(w, h, c) && InBounds(w, h, p)
    ensures InBounds(w, h, r.0)
    ensures r.1 ==> Accepts(c[IndexOf(w, h, r.0)], value)
    decreases Dist(w, h, p, d)
  {
    StepTowardsWall(w, h, p, d);
    var next := Add(p, Delta(d));
    if !InBounds(w, h, next) then (p, false)
    else if c[IndexOf(w, h, next)].Some? then
      if Accepts(c[IndexOf(w, h, next)], value) then (next, true) else (p, false)
    else Slide(w, h, c, value, next, d)
  }

  /** The sliding rules. A block ends n cells ahead of where it started, having
      passed only empty nodes; if it merged, the last of those cells held a
      block that accepted it; otherwise the last cell is empty (or the block did
      not move) and the next one is the wall or a block that refuses it. */
  lemma {:induction false} SlideRules<Id>(w: int, h: int, c: Cells<Id>, value: int, p: Vec, d: Dir)
    requires Shaped(w, h, c) && InBounds(w, h, p)
    ensures var (q, merged) := Slide(w, h, c, value, p, d);
      var n := Dist(w, h, p, d) - Dist(w, h, q, d);
      && n >= 0 && q == Ahead(p, d, n)
      && (forall k :: 0 < k < n ==> InBounds(w, h, Ahead(p, d, k)) && c[IndexOf(w, h, Ahead(p, d, k))].None?)
      && (merged ==> n > 0 && Accepts(c[IndexOf(w, h, q)], value))
      && (!merged ==> (n > 0 ==> c[IndexOf(w, h, q)].None?) && Blocked(w, h, c, value, q, d))
    decreases Dist(w, h, p, d)
  {
    StepTowardsWall(w, h, p, d);
    var next := Add(p, Delta(d));
    if InBounds(w, h, next) && c[IndexOf(w, h, next)].None? {
      SlideRules(w, h, c, value, next, d);
      var q := Slide(w, h, c, value, next, d).0;
      var n := Dist(w, h, p, d) - Dist(w, h, q, d);
      AheadOfNext(p, d, n);
      forall k | 0 < k < n
        ensures InBounds(w, h, Ahead(p, d, k)) && c[IndexOf(w, h, Ahead(p, d, k))].None?
      {
        AheadOfNext(p, d, k);
      }
    }
  }

  // ---------------------------------------------------------------------
  // The shift pass

  /** Processing the block that started at node s: slide it, and unless it
      stays put, clear its old node and put it (doubled and flagged, if it
      merged) on the node where it ends, recording a move or a merge. */
  function Step<Id(==)>(w: int, h: int, st: PassState<Id>, s: nat, d: Dir): (r: PassState<Id>)
    requires Shaped(w, h, st.cells) && s < |st.cells|
    ensures |r.cells| == |st.cells|
    ensures |st.moves| <= |r.moves| && |st.merges| <= |r.merges|
    ensures r.moves[..|st.moves|] == st.moves && r.merges[..|st.merges|] == st.merges
    ensures |r.moves| + |r.merges| <= |st.moves| + |st.merges| + 1
  {
    match st.cells[s]
    case None => st
    case Some(t) =>
      var start := PosOf(w, h, s);
      var (q, merged) := Slide(w, h, st.cells, t.value, start, d);
      if q == start then st
      else
        var i := IndexOf(w, h, q);
        if merged then
          PassState(st.cells[s := None][i := Some(Tile(t.id, 2 * t.value, true))],
                    st.moves, st.merges + [Merge(t.id, st.cells[i].value.id, i)])
        else
          PassState(st.cells[s := None][i := Some(t)], st.moves + [Move(t.id, i)], st.merges)
  }

  /** The blocks that started at order[..] processed one after the other. */
  function PassOver<Id(==)>(w: int, h: int, st: PassState<Id>, order: seq<nat>, d: Dir): (r: PassState<Id>)
    requires Shaped(w, h, st.cells)
    requires forall k :: 0 <= k < |order| ==> order[k] < |st.cells|
    ensures |r.cells| == |st.cells|
  {
    if |order| == 0 then st
    else Step(w, h, PassOver(w, h, st, order[..|order| - 1], d), order[|order| - 1], d)
  }

  /** The synchronous loop of ShiftBlocksAsync: every block of the snapshot
      processed in traversal order. */
  function Pass<Id(==)>(w: int, h: int, c: Cells<Id>, d: Dir): (r: PassState<Id>)
    requires Shaped(w, h, c)
    ensures |r.cells| == |c|
    ensures |r.moves| + |r.merges| <= Occupancy(c)
  {
    PassOverRecords(w, h, PassState(c, [], []), Snapshot(c, d), d);
    PassOver(w, h, PassState(c, [], []), Snapshot(c, d), d)
  }

  /** Each block processed adds at most one move or merge to the record, and
      the earlier records stay as they were. */
  lemma {:induction false} PassOverRecords<Id>(w: int, h: int, st: PassState<Id>, order: seq<nat>, d: Dir)
    requires Shaped(w, h, st.cells)
    requires forall k :: 0 <= k < |order| ==> order[k] < |st.cells|
    ensures var r := PassOver(w, h, st, order, d);
      && |st.moves| <= |r.moves| && |st.merges| <= |r.merges|
      && r.moves[..|st.moves|] == st.moves && r.merges[..|st.merges|] == st.merges
      && |r.moves| + |r.merges| <= |st.moves| + |st.merges| + |order|
  {
    if |order| > 0 {
      var pre := order[..|order| - 1];
      PassOverRecords(w, h, st, pre, d);
      var mid := PassOver(w, h, st, pre, d);
      var r := Step(w, h, mid, order[|order| - 1], d);
      assert r.moves[..|st.moves|] == r.moves[..|mid.moves|][..|st.moves|];
      assert r.merges[..|st.merges|] == r.merges[..|mid.merges|][..|st.merges|];
    }
  }

  /** A pass over blocks none of which moves or merges leaves the board as it
      was. */
  lemma {:induction false} QuietPassOver<Id>(w: int, h: int, st: PassState<Id>, order: seq<nat>, d: Dir)
    requires Shaped(w, h, st.cells)
    requires forall k :: 0 <= k < |order| ==> order[k] < |st.cells|
    ensures var r := PassOver(w, h, st, order, d);
      |r.moves| + |r.merges| == |st.moves| + |st.merges| ==> r.cells == st.cells
  {
    if |order| > 0 {
      var pre := order[..|order| - 1];
      var s := order[|order| - 1];
      PassOverRecords(w, h, st, pre, d);
      QuietPassOver(w, h, st, pre, d);
      var mid := PassOver(w, h, st, pre, d);
      if mid.cells[s].Some? {
        StepShape(w, h, mid, s, d);
      }
    }
  }

  /** A move in which no block moves or merges changes nothing, so repeating
      it changes nothing either. */
  lemma QuietShift<Id>(w: int, h: int, c: Cells<Id>, d: Dir)
    requires AtRest(w, h, c)
    ensures |Pass(w, h, c, d).moves| + |Pass(w, h, c, d).merges| == 0 ==> Shift(w, h, c, d) == c
  {
    QuietPassOver(w, h, PassState(c, [], []), Snapshot(c, d), d);
    if |Pass(w, h, c, d).moves| + |Pass(w, h, c, d).merges| == 0 {
      var r := Shift(w, h, c, d);
      forall i | 0 <= i < |c| ensures r[i] == c[i] {
        if c[i].Some? {
          assert r[i].value == c[i].value;
        }
      }
    }
  }


  /** A whole move: the pass, then the reset of the merge flags. */
  function Shift<Id(==)>(w: int, h: int, c: Cells<Id>, d: Dir): (r: Cells<Id>)
    requires Shaped(w, h, c)
    ensures |r| == |c| && NoFlags(r)
  {
    ClearFlags(Pass(w, h, c, d).cells)
  }

  /** The merge record so far agrees with the board: a block that absorbed
      another is flagged as long as it is on the board, an absorbed block is
      gone, and no block took part in two merges. */
  ghost predicate History<Id>(c: Cells<Id>, ms: seq<Merge<Id>>) {
    && (forall e, i :: 0 <= e < |ms| && 0 <= i < |c| && c[i].Some? && c[i].value.id == ms[e].block
          ==> c[i].value.merged)
    && (forall e, i :: 0 <= e < |ms| && 0 <= i < |c| && c[i].Some? ==> c[i].value.id != ms[e].absorbed)
    && NoDoubleMerge(ms)
  }

  /** What holds once the first k blocks of the snapshot are processed: blocks
      not yet processed are still where they started; no block is on two nodes;
      the value total is unchanged; every merge removed one block; and the
      merge record agrees with the board. */
  ghost predicate PassInvariant<Id>(w: int, h: int, c0: Cells<Id>, order: seq<nat>, k: nat, st: PassState<Id>)
    requires Shaped(w, h, c0)
    requires forall j :: 0 <= j < |order| ==> order[j] < |c0|
  {
    && |st.cells| == |c0|
    && (forall j :: k <= j < |order| ==> st.cells[order[j]] == c0[order[j]])
    && DistinctIds(st.cells)
    && Total(st.cells) == Total(c0)
    && Occupancy(st.cells) + |st.merges| == Occupancy(c0)
    && History(st.cells, st.merges)
  }

  /** The conditions a shift starts from: a well-formed board at rest. */
  ghost predicate AtRest<Id>(w: int, h: int, c: Cells<Id>) {
    Shaped(w, h, c) && DistinctIds(c) && NoFlags(c)
  }

  /** Moving the block on node s to node i. */
  function Relocate<Id(==)>(c: Cells<Id>, s: nat, i: nat, t: Tile<Id>): (r: Cells<Id>)
    requires s < |c| && i < |c|
    ensures |r| == |c|
  {
    c[s := None][i := Some(t)]
  }

  lemma RelocateKeepsDistinct<Id>(c: Cells<Id>, s: nat, i: nat, t: Tile<Id>)
    requires s < |c| && i < |c| && s != i && DistinctIds(c)
    requires c[s].Some? && t.id == c[s].value.id
    ensures DistinctIds(Relocate(c, s, i, t))
  {
    var r := Relocate(c, s, i, t);
    forall a, b | 0 <= a < |r| && 0 <= b < |r| && r[a].Some? && r[b].Some? && r[a].value.id == r[b].value.id
      ensures a == b
    {
      if a != i && b != i {
        assert r[a] == c[a] && r[b] == c[b];
      }
    }
  }

  lemma RelocateTotals<Id>(c: Cells<Id>, s: nat, i: nat, t: Tile<Id>)
    requires s < |c| && i < |c| && s != i
    ensures Total(Relocate(c, s, i, t)) == Total(c) - CellValue(c[s]) - CellValue(c[i]) + t.value
    ensures Occupancy(Relocate(c, s, i, t)) ==
      Occupancy(c) - (if c[s].Some? then 1 else 0) - (if c[i].Some? then 1 else 0) + 1
  {
    TotalUpdate(c, s, None);
    TotalUpdate(c[s := None], i, Some(t));
    OccupancyUpdate(c, s, None);
    OccupancyUpdate(c[s := None], i, Some(t));
  }

  /** A block that moves onto an empty node keeps the merge record consistent. */
  lemma MoveKeepsHistory<Id>(c: Cells<Id>, ms: seq<Merge<Id>>, s: nat, i: nat)
    requires s < |c| && i < |c| && s != i && DistinctIds(c) && History(c, ms)
    requires c[s].Some? && !c[s].value.merged
    ensures History(Relocate(c, s, i, c[s].value), ms)
  {
    var r := Relocate(c, s, i, c[s].value);
    forall e, a | 0 <= e < |ms| && 0 <= a < |r| && r[a].Some?
      ensures r[a].value.id == ms[e].block ==> r[a].value.merged
      ensures r[a].value.id != ms[e].absorbed
    {
      if a != i {
        assert r[a] == c[a];
      } else {
        assert r[a] == c[s];
      }
    }
  }

  /** A block that absorbs an unflagged block keeps the merge record
      consistent: neither of the two took part in an earlier merge. */
  lemma MergeKeepsHistory<Id>(c: Cells<Id>, ms: seq<Merge<Id>>, s: nat, i: nat, t: Tile<Id>)
    requires s < |c| && i < |c| && s != i && DistinctIds(c) && History(c, ms)
    requires c[s] == Some(t) && !t.merged
    requires c[i].Some? && !c[i].value.merged
    ensures History(Relocate(c, s, i, Tile(t.id, 2 * t.value, true)), ms + [Merge(t.id, c[i].value.id, i)])
  {
    var r := Relocate(c, s, i, Tile(t.id, 2 * t.value, true));
    var m := Merge(t.id, c[i].value.id, i);
    var ms' := ms + [m];
    forall e | 0 <= e < |ms|
      ensures t.id != ms[e].block && t.id != ms[e].absorbed
      ensures m.absorbed != ms[e].block && m.absorbed != ms[e].absorbed
    {
      assert c[s].Some? && c[i].Some?;
    }
    assert m.block != m.absorbed;
    assert NoDoubleMerge(ms');
    forall e, a | 0 <= e < |ms'| && 0 <= a < |r| && r[a].Some?
      ensures r[a].value.id == ms'[e].block ==> r[a].value.merged
      ensures r[a].value.id != ms'[e].absorbed
    {
      if a != i {
        assert r[a] == c[a];
        if e == |ms| {
          assert r[a].value.id != t.id;
        }
      }
    }
  }

  /** A traversal order of a shift over c: occupied nodes, strictly ordered
      by Before (the properties of Snapshot that the pass relies on). */
  ghost predicate TraversalOrder<Id>(c: Cells<Id>, d: Dir, order: seq<nat>) {
    && (forall k :: 0 <= k < |order| ==> order[k] < |c| && c[order[k]].Some?)
    && (forall j, k :: 0 <= j < k < |order| ==> Before(d, order[j], order[k]))
  }

  /** The positions of the order still to be processed are untouched by a
      step whose block leaves node s for node i, because i lies ahead of s. */
  lemma {:induction false} StepSparesLaterStarts<Id>(w: int, h: int, c0: Cells<Id>, d: Dir, order: seq<nat>, k: nat, q: Vec)
    requires Shaped(w, h, c0) && TraversalOrder(c0, d, order) && k < |order|
    requires var n := Dist(w, h, PosOf(w, h, order[k]), d) - Dist(w, h, q, d);
      n > 0 && q == Ahead(PosOf(w, h, order[k]), d, n) && InBounds(w, h, q)
    ensures IndexOf(w, h, q) != order[k]
    ensures forall j :: k < j < |order| ==> order[j] != order[k] && order[j] != IndexOf(w, h, q)
  {
    var s := order[k];
    var start := PosOf(w, h, s);
    AheadComesFirst(w, h, start, d, Dist(w, h, start, d) - Dist(w, h, q, d));
    forall j | k < j < |order|
      ensures order[j] != s && order[j] != IndexOf(w, h, q)
    {
      assert Before(d, s, order[j]);
    }
  }

  /** The block that started at order[k] moving to the empty node i, which
      is not the start of a later block, keeps the invariant. */
  lemma MoveKeepsInvariant<Id>(w: int, h: int, c0: Cells<Id>, d: Dir, order: seq<nat>, k: nat, st: PassState<Id>, i: nat)
    requires AtRest(w, h, c0) && TraversalOrder(c0, d, order) && k < |order|
    requires PassInvariant(w, h, c0, order, k, st)
    requires i < |c0| && i != order[k] && st.cells[i].None?
    requires forall j :: k < j < |order| ==> order[j] != order[k] && order[j] != i
    ensures var t := st.cells[order[k]].value;
      PassInvariant(w, h, c0, order, k + 1, PassState(Relocate(st.cells, order[k], i, t), st.moves + [Move(t.id, i)], st.merges))
  {
    var c, s := st.cells, order[k];
    assert c[s] == c0[s];
    var t := c[s].value;
    RelocateKeepsDistinct(c, s, i, t);
    RelocateTotals(c, s, i, t);
    MoveKeepsHistory(c, st.merges, s, i);
  }

  /** The block that started at order[k] absorbing the unflagged block on
      node i, which is not the start of a later block, keeps the invariant. */
  lemma MergeKeepsInvariant<Id>(w: int, h: int, c0: Cells<Id>, d: Dir, order: seq<nat>, k: nat, st: PassState<Id>, i: nat)
    requires AtRest(w, h, c0) && TraversalOrder(c0, d, order) && k < |order|
    requires PassInvariant(w, h, c0, order, k, st)
    requires i < |c0| && i != order[k] && st.cells[order[k]].Some? && Accepts(st.cells[i], st.cells[order[k]].value.value)
    requires forall j :: k < j < |order| ==> order[j] != order[k] && order[j] != i
    ensures var t := st.cells[order[k]].value;
      PassInvariant(w, h, c0, order, k + 1,
        PassState(Relocate(st.cells, order[k], i, Tile(t.id, 2 * t.value, true)), st.moves, st.merges + [Merge(t.id, st.cells[i].value.id, i)]))
  {
    var c, s := st.cells, order[k];
    assert c[s] == c0[s];
    var t := c[s].value;
    var moved := Tile(t.id, 2 * t.value, true);
    RelocateKeepsDistinct(c, s, i, moved);
    RelocateTotals(c, s, i, moved);
    MergeKeepsHistory(c, st.merges, s, i, t);
  }

  /** Processing one more block of the order keeps the invariant. This is
      where the traversal order matters: the node a block ends on lies ahead
      of its start, so it comes earlier in the order and cannot be the start
      of a block still to be processed. */
  lemma {:induction false} StepKeepsInvariant<Id>(w: int, h: int, c0: Cells<Id>, d: Dir, order: seq<nat>, k: nat, st: PassState<Id>)
    requires AtRest(w, h, c0) && TraversalOrder(c0, d, order) && k < |order|
    requires PassInvariant(w, h, c0, order, k, st)
    ensures PassInvariant(w, h, c0, order, k + 1, Step(w, h, st, order[k], d))
  {
    var c := st.cells;
    var s := order[k];
    assert c[s] == c0[s];
    var t := c[s].value;
    assert !t.merged;
    var start := PosOf(w, h, s);
    var (q, merged) := Slide(w, h, c, t.value, start, d);
    SlideRules(w, h, c, t.value, start, d);
    var r := Step(w, h, st, s, d);
    if q != start {
      StepSparesLaterStarts(w, h, c0, d, order, k, q);
      var i := IndexOf(w, h, q);
      if merged {
        assert r == PassState(Relocate(c, s, i, Tile(t.id, 2 * t.value, true)), st.moves, st.merges + [Merge(t.id, c[i].value.id, i)]);
        MergeKeepsInvariant(w, h, c0, d, order, k, st, i);
      } else {
        assert r == PassState(Relocate(c, s, i, t), st.moves + [Move(t.id, i)], st.merges);
        MoveKeepsInvariant(w, h, c0, d, order, k, st, i);
      }
    } else {
      assert r == st;
    }
  }

  /** The invariant holds after every prefix of an order in traversal order. */
  lemma {:induction false} OrderPrefix<Id>(w: int, h: int, c0: Cells<Id>, d: Dir, order: seq<nat>, k: nat)
    requires AtRest(w, h, c0) && TraversalOrder(c0, d, order) && k <= |order|
    ensures PassInvariant(w, h, c0, order, k, PassOver(w, h, PassState(c0, [], []), order[..k], d))
  {
    if k > 0 {
      OrderPrefix(w, h, c0, d, order, k - 1);
      assert order[..k][..k - 1] == order[..k - 1];
      StepKeepsInvariant(w, h, c0, d, order, k - 1, PassOver(w, h, PassState(c0, [], []), order[..k - 1], d));
    }
  }

  /** The invariant holds after every prefix of the snapshot. */
  lemma PassPrefix<Id>(w: int, h: int, c0: Cells<Id>, d: Dir, k: nat)
    requires AtRest(w, h, c0)
    requires k <= |Snapshot(c0, d)|
    ensures PassInvariant(w, h, c0, Snapshot(c0, d), k, PassOver(w, h, PassState(c0, [], []), Snapshot(c0, d)[..k], d))
  {
    SnapshotOrdered(c0, d);
    OrderPrefix(w, h, c0, d, Snapshot(c0, d), k);
  }

  /** Processing one more block of the snapshot is one more Step. */
  lemma PassOverNext<Id>(w: int, h: int, c0: Cells<Id>, d: Dir, k: nat)
    requires Shaped(w, h, c0) && k < |Snapshot(c0, d)|
    ensures var order := Snapshot(c0, d);
      PassOver(w, h, PassState(c0, [], []), order[..k + 1], d)
      == Step(w, h, PassOver(w, h, PassState(c0, [], []), order[..k], d), order[k], d)
  {
    var order := Snapshot(c0, d);
    assert order[..k + 1][..k] == order[..k];
  }

  /** What a whole shift keeps: the same total value, one block fewer per
      merge, no block on two nodes, every flag down afterwards, and no block in
      two merges. */
  lemma ShiftKeepsInvariants<Id>(w: int, h: int, c: Cells<Id>, d: Dir)
    requires AtRest(w, h, c)
    ensures var after := Shift(w, h, c, d);
      && AtRest(w, h, after)
      && Total(after) == Total(c)
      && Occupancy(after) == Occupancy(c) - |Pass(w, h, c, d).merges|
      && NoDoubleMerge(Pass(w, h, c, d).merges)
  {
    var order := Snapshot(c, d);
    PassPrefix(w, h, c, d, |order|);
    assert order[..|order|] == order;
    var p := Pass(w, h, c, d).cells;
    SameShapeSameTotals(ClearFlags(p), p);
  }

  /** The blocks on the board. */
  ghost function Residents<Id>(c: Cells<Id>): set<Id> {
    set i | 0 <= i < |c| && c[i].Some? :: c[i].value.id
  }

  /** A step only moves or absorbs blocks: every block on the board after it
      was on the board before. */
  lemma StepResidents<Id>(w: int, h: int, st: PassState<Id>, s: nat, d: Dir)
    requires Shaped(w, h, st.cells) && s < |st.cells|
    ensures Residents(Step(w, h, st, s, d).cells) <= Residents(st.cells)
  {
    var c, r := st.cells, Step(w, h, st, s, d).cells;
    if c[s].Some? {
      StepShape(w, h, st, s, d);
      forall x | x in Residents(r) ensures x in Residents(c) {
        var j :| 0 <= j < |r| && r[j].Some? && r[j].value.id == x;
        if r[j] != c[j] {
          assert c[s].value.id == x;
        }
      }
    }
  }

  /** The same for any run of steps. */
  lemma {:induction false} PassOverResidents<Id>(w: int, h: int, st: PassState<Id>, order: seq<nat>, d: Dir)
    requires Shaped(w, h, st.cells)
    requires forall k :: 0 <= k < |order| ==> order[k] < |st.cells|
    ensures Residents(PassOver(w, h, st, order, d).cells) <= Residents(st.cells)
  {
    if |order| > 0 {
      var o := order[..|order| - 1];
      PassOverResidents(w, h, st, o, d);
      StepResidents(w, h, PassOver(w, h, st, o, d), order[|order| - 1], d);
    }
  }

  /** A pass creates no block: the list after it lists only blocks of the
      list before it. */
  lemma PassCreatesNoBlock<Id>(w: int, h: int, c: Cells<Id>, d: Dir, ids: seq<Id>, states: seq<BlockState>,
                               ids': seq<Id>, states': seq<BlockState>)
    requires Roster(w, h, c, ids, states)
    requires Roster(w, h, Pass(w, h, c, d).cells, ids', states')
    ensures forall b :: b in ids' ==> b in ids
  {
    var after := Pass(w, h, c, d).cells;
    PassOverResidents(w, h, PassState(c, [], []), Snapshot(c, d), d);
    forall b | b in ids' ensures b in ids {
      var j :| 0 <= j < |ids'| && ids'[j] == b;
      var i := IndexOf(w, h, states'[j].index);
      assert b in Residents(after);
      var i0 :| 0 <= i0 < |c| && c[i0].Some? && c[i0].value.id == b;
    }
  }

  /** Before touching a block's node, the pass finds the block where it
      started: nothing processed earlier moved onto or out of that node. */
  lemma SnapshotBlockInPlace<Id>(w: int, h: int, c: Cells<Id>, d: Dir, k: nat)
    requires AtRest(w, h, c)
    requires k < |Snapshot(c, d)|
    ensures var st := PassOver(w, h, PassState(c, [], []), Snapshot(c, d)[..k], d);
      st.cells[Snapshot(c, d)[k]] == c[Snapshot(c, d)[k]]
  {
    PassPrefix(w, h, c, d, k);
  }

  /** Step by cases, with the board change written as Relocate. */
  lemma StepShape<Id>(w: int, h: int, st: PassState<Id>, s: nat, d: Dir)
    requires Shaped(w, h, st.cells) && s < |st.cells| && st.cells[s].Some?
    ensures var t := st.cells[s].value;
      var start := PosOf(w, h, s);
      var (q, merged) := Slide(w, h, st.cells, t.value, start, d);
      var i := IndexOf(w, h, q);
      && (q == start ==> Step(w, h, st, s, d) == st)
      && (q != start && merged ==>
            Step(w, h, st, s, d) ==
            PassState(Relocate(st.cells, s, i, Tile(t.id, 2 * t.value, true)), st.moves, st.merges + [Merge(t.id, st.cells[i].value.id, i)]))
      && (q != start && !merged ==>
            Step(w, h, st, s, d) ==
            PassState(Relocate(st.cells, s, i, t), st.moves + [Move(t.id, i)], st.merges))
  {}

  /** A block that stays where it started changes nothing; any other block
      leaves its start node empty. */
  lemma StepChangesOnlyMovers<Id>(w: int, h: int, st: PassState<Id>, s: nat, d: Dir)
    requires Shaped(w, h, st.cells) && s < |st.cells| && st.cells[s].Some?
    ensures var r := Step(w, h, st, s, d);
      var stays := Slide(w, h, st.cells, st.cells[s].value.value, PosOf(w, h, s), d).0 == PosOf(w, h, s);
      (stays ==> r == st) && (!stays ==> r.cells[s].None?)
  {
    var start := PosOf(w, h, s);
    var q := Slide(w, h, st.cells, st.cells[s].value.value, start, d).0;
    if q != start {
      assert IndexOf(w, h, q) != s;
    }
  }

  // ---------------------------------------------------------------------
  // The list of live blocks

  /** The fields of one Block object: CurrentIndex, CurrentValue, IsMerged. */
  datatype BlockState = BlockState(index: Vec, value: int, merged: bool)

  predicate NoDuplicates<T(==)>(s: seq<T>) {
    forall j, k :: 0 <= j < k < |s| ==> s[j] != s[k]
  }

  function RemoveAt<T>(s: seq<T>, q: nat): (r: seq<T>)
    requires q < |s|
    ensures |r| == |s| - 1
    ensures forall j :: 0 <= j < |r| ==> r[j] == if j < q then s[j] else s[j + 1]
  {
    s[..q] + s[q + 1..]
  }

  /** Overwriting entry p commutes with dropping another entry q, once p is
      renumbered for the shorter list. */
  lemma RemoveAtUpdate<T>(s: seq<T>, p: nat, q: nat, a: T, b: T)
    requires p < |s| && q < |s| && p != q
    ensures var p' := if p < q then p else p - 1;
      p' < |s| - 1 && RemoveAt(s[p := a], q)[p' := b] == RemoveAt(s[p := b], q)
  {
    var p' := if p < q then p else p - 1;
    var l, r := RemoveAt(s[p := a], q)[p' := b], RemoveAt(s[p := b], q);
    forall j | 0 <= j < |r| ensures l[j] == r[j] {
      if j != p' {
        assert l[j] == s[p := a][if j < q then j else j + 1];
      }
    }
  }

  /** Removing the entry at q of a list without duplicates removes exactly
      that element. */
  lemma RemoveAtFacts<T>(s: seq<T>, q: nat)
    requires q < |s| && NoDuplicates(s)
    ensures NoDuplicates(RemoveAt(s, q))
    ensures forall y :: y in RemoveAt(s, q) <==> y in s && y != s[q]
  {
    var r := RemoveAt(s, q);
    forall a, b | 0 <= a < b < |r| ensures r[a] != r[b] {
      assert r[a] == s[if a < q then a else a + 1];
      assert r[b] == s[if b < q then b else b + 1];
    }
    forall y | y in s && y != s[q] ensures y in r {
      var o :| 0 <= o < |s| && s[o] == y;
      assert r[if o < q then o else o - 1] == y;
    }
  }

  /** The list `ids` of live blocks, whose fields are `states`, holds exactly
      the blocks on the board, each once, and each block's fields agree with
      the node it sits on: its coordinate, its value and its flag. */
  ghost predicate Roster<Id>(w: int, h: int, c: Cells<Id>, ids: seq<Id>, states: seq<BlockState>) {
    && Shaped(w, h, c)
    && |states| == |ids| && NoDuplicates(ids) && |ids| == Occupancy(c) && DistinctIds(c)
    && (forall i :: 0 <= i < |c| && c[i].Some? ==> c[i].value.id in ids)
    && (forall j :: 0 <= j < |ids| ==>
          InBounds(w, h, states[j].index) &&
          c[IndexOf(w, h, states[j].index)] == Some(Tile(ids[j], states[j].value, states[j].merged)))
  }

  /** The list entry of the block on node i, and its fields. */
  lemma RosterLookup<Id>(w: int, h: int, c: Cells<Id>, ids: seq<Id>, states: seq<BlockState>, i: nat) returns (j: nat)
    requires Roster(w, h, c, ids, states) && i < |c| && c[i].Some?
    ensures j < |ids| && ids[j] == c[i].value.id
    ensures states[j] == BlockState(PosOf(w, h, i), c[i].value.value, c[i].value.merged)
  {
    j :| 0 <= j < |ids| && ids[j] == c[i].value.id;
    var k := IndexOf(w, h, states[j].index);
    assert c[k].value.id == c[i].value.id;
  }

  /** Every block of the list sits on a node whose flag agrees with the
      list's record of it. */
  lemma RosterFlags<Id>(w: int, h: int, c: Cells<Id>, ids: seq<Id>, states: seq<BlockState>)
    requires Roster(w, h, c, ids, states)
    ensures NoFlags(c) <==> forall j :: 0 <= j < |states| ==> !states[j].merged
  {
    if forall j :: 0 <= j < |states| ==> !states[j].merged {
      forall i | 0 <= i < |c| && c[i].Some? ensures !c[i].value.merged {
        var j := RosterLookup(w, h, c, ids, states, i);
      }
    }
  }

  /** A new block spawned on an empty node joins the end of the list. */
  lemma RosterSpawn<Id>(w: int, h: int, c: Cells<Id>, ids: seq<Id>, states: seq<BlockState>, i: nat, b: Id, value: int)
    requires Roster(w, h, c, ids, states) && i < |c| && c[i].None? && b !in ids
    ensures Roster(w, h, c[i := Some(Tile(b, value, false))], ids + [b], states + [BlockState(PosOf(w, h, i), value, false)])
  {
    var c' := c[i := Some(Tile(b, value, false))];
    var ids' := ids + [b];
    var states' := states + [BlockState(PosOf(w, h, i), value, false)];
    OccupancyUpdate(c, i, Some(Tile(b, value, false)));
    forall j | 0 <= j < |ids|
      ensures IndexOf(w, h, states'[j].index) != i
    {
      assert states'[j] == states[j];
    }
    forall x, y | 0 <= x < |c'| && 0 <= y < |c'| && c'[x].Some? && c'[y].Some? && c'[x].value.id == c'[y].value.id
      ensures x == y
    {
      if x != i && y != i {
        assert c'[x] == c[x] && c'[y] == c[y];
      } else if x != i {
        assert c[x].value.id in ids;
      }
    }
  }

  /** A block that moves from node s to the empty node i, with its new fields
      in `t`, keeps the list in step once its entry p is updated. */
  lemma RosterMove<Id>(w: int, h: int, c: Cells<Id>, ids: seq<Id>, states: seq<BlockState>, s: nat, i: nat, p: nat, t: Tile<Id>)
    requires Roster(w, h, c, ids, states) && s < |c| && i < |c| && s != i
    requires c[s].Some? && c[i].None? && p < |ids| && ids[p] == c[s].value.id && t.id == ids[p]
    ensures Roster(w, h, Relocate(c, s, i, t), ids, states[p := BlockState(PosOf(w, h, i), t.value, t.merged)])
  {
    var c' := Relocate(c, s, i, t);
    var states' := states[p := BlockState(PosOf(w, h, i), t.value, t.merged)];
    RelocateKeepsDistinct(c, s, i, t);
    RelocateTotals(c, s, i, t);
    var j0 := RosterLookup(w, h, c, ids, states, s);
    forall j | 0 <= j < |ids| && j != p
      ensures InBounds(w, h, states'[j].index) && c'[IndexOf(w, h, states'[j].index)] == Some(Tile(ids[j], states'[j].value, states'[j].merged))
    {
      var k := IndexOf(w, h, states[j].index);
      assert k != s && k != i;
    }
    forall x | 0 <= x < |c'| && c'[x].Some? ensures c'[x].value.id in ids {
      if x != i { assert c'[x] == c[x]; }
    }
  }

  /** A block that moves from node s onto node i and absorbs the block there
      (entry q of the list) keeps the list in step once its entry p is updated
      and entry q is dropped. */
  lemma RosterMerge<Id>(w: int, h: int, c: Cells<Id>, ids: seq<Id>, states: seq<BlockState>, s: nat, i: nat, p: nat, q: nat, t: Tile<Id>)
    requires Roster(w, h, c, ids, states) && s < |c| && i < |c| && s != i
    requires c[s].Some? && c[i].Some? && p < |ids| && ids[p] == c[s].value.id && t.id == ids[p]
    requires q < |ids| && ids[q] == c[i].value.id
    ensures Roster(w, h, Relocate(c, s, i, t), RemoveAt(ids, q), RemoveAt(states[p := BlockState(PosOf(w, h, i), t.value, t.merged)], q))
  {
    var c' := Relocate(c, s, i, t);
    var ids' := RemoveAt(ids, q);
    RelocateKeepsDistinct(c, s, i, t);
    RelocateTotals(c, s, i, t);
    RosterMergeEntries(w, h, c, ids, states, s, i, p, q, t);
    RemoveAtFacts(ids, q);
    forall x | 0 <= x < |c'| && c'[x].Some? ensures c'[x].value.id in ids' {
      if x != i { assert c'[x] == c[x]; }
    }
  }

  /** The entry-by-entry part of RosterMerge: every remaining entry of the
      list still describes the node it points to. */
  lemma RosterMergeEntries<Id>(w: int, h: int, c: Cells<Id>, ids: seq<Id>, states: seq<BlockState>, s: nat, i: nat, p: nat, q: nat, t: Tile<Id>)
    requires Roster(w, h, c, ids, states) && s < |c| && i < |c| && s != i
    requires c[s].Some? && c[i].Some? && p < |ids| && ids[p] == c[s].value.id && t.id == ids[p]
    requires q < |ids| && ids[q] == c[i].value.id
    ensures var c' := Relocate(c, s, i, t);
      var ids' := RemoveAt(ids, q);
      var states' := RemoveAt(states[p := BlockState(PosOf(w, h, i), t.value, t.merged)], q);
      |states'| == |ids'| &&
      forall j :: 0 <= j < |ids'| ==>
        InBounds(w, h, states'[j].index) && c'[IndexOf(w, h, states'[j].index)] == Some(Tile(ids'[j], states'[j].value, states'[j].merged))
  {
    var c' := Relocate(c, s, i, t);
    var st1 := states[p := BlockState(PosOf(w, h, i), t.value, t.merged)];
    var ids' := RemoveAt(ids, q);
    var states' := RemoveAt(st1, q);
    var j0 := RosterLookup(w, h, c, ids, states, s);
    var q0 := RosterLookup(w, h, c, ids, states, i);
    assert p != q;
    forall j | 0 <= j < |ids'|
      ensures InBounds(w, h, states'[j].index) && c'[IndexOf(w, h, states'[j].index)] == Some(Tile(ids'[j], states'[j].value, states'[j].merged))
    {
      var o := if j < q then j else j + 1;
      assert ids'[j] == ids[o] && states'[j] == st1[o];
      if o != p {
        var k := IndexOf(w, h, states[o].index);
        assert k != s && k != i;
      }
    }
  }

  /** The list after a merge as GameManager performs it: the mover's entry p
      first gets the doubled value and the flag, then the absorbed block's
      entry q is dropped, then the mover's entry (renumbered) gets its new
      coordinate. */
  lemma RosterMergeSteps<Id>(w: int, h: int, c: Cells<Id>, ids: seq<Id>, states: seq<BlockState>, s: nat, i: nat, p: nat, q: nat, t: Tile<Id>)
    requires Roster(w, h, c, ids, states) && s < |c| && i < |c| && s != i
    requires c[s].Some? && c[i].Some? && p < |ids| && ids[p] == c[s].value.id && t.id == ids[p]
    requires q < |ids| && ids[q] == c[i].value.id
    ensures p != q
    ensures var p' := if p < q then p else p - 1;
      var mid := RemoveAt(states[p := BlockState(states[p].index, t.value, t.merged)], q);
      p' < |mid| && Roster(w, h, Relocate(c, s, i, t), RemoveAt(ids, q), mid[p' := BlockState(PosOf(w, h, i), t.value, t.merged)])
  {
    var j0 := RosterLookup(w, h, c, ids, states, s);
    var q0 := RosterLookup(w, h, c, ids, states, i);
    RemoveAtUpdate(states, p, q, BlockState(states[p].index, t.value, t.merged), BlockState(PosOf(w, h, i), t.value, t.merged));
    RosterMerge(w, h, c, ids, states, s, i, p, q, t);
  }

  /** Lowering the flag of the block at entry p of the list. */
  lemma RosterLowerFlag<Id>(w: int, h: int, c: Cells<Id>, ids: seq<Id>, states: seq<BlockState>, p: nat)
    requires Roster(w, h, c, ids, states) && p < |ids|
    ensures var i := IndexOf(w, h, states[p].index);
      Roster(w, h, c[i := Some(Tile(ids[p], states[p].value, false))], ids, states[p := BlockState(states[p].index, states[p].value, false)])
  {
    var i := IndexOf(w, h, states[p].index);
    var t := Tile(ids[p], states[p].value, false);
    var c' := c[i := Some(t)];
    var states' := states[p := BlockState(states[p].index, states[p].value, false)];
    SameShapeSameTotals(c', c);
    forall j | 0 <= j < |ids| && j != p
      ensures c'[IndexOf(w, h, states'[j].index)] == Some(Tile(ids[j], states'[j].value, states'[j].merged))
    {
      assert IndexOf(w, h, states[j].index) != i;
    }
    forall x, y | 0 <= x < |c'| && 0 <= y < |c'| && c'[x].Some? && c'[y].Some? && c'[x].value.id == c'[y].value.id
      ensures x == y
    {
      assert c'[x].value.id == c[x].value.id && c'[y].value.id == c[y].value.id;
    }
    forall x | 0 <= x < |c'| && c'[x].Some? ensures c'[x].value.id in ids {
      assert c'[x].value.id == c[x].value.id;
    }
  }

  // ---------------------------------------------------------------------
  // Spawning

  /** `after` is `before` with n new blocks on distinct, previously empty
      nodes, each holding `first` or `second` and unflagged; every occupied
      node is unchanged. */
  ghost predicate SpawnedOn<Id>(before: Cells<Id>, after: Cells<Id>, n: int, first: int, second: int): (r: bool)
    ensures r ==> n <= FreeCount(before) && FreeCount(after) == FreeCount(before) - n
  {
    && |after| == |before|
    && (forall i :: 0 <= i < |before| && before[i].Some? ==> after[i] == before[i])
    && (forall i :: 0 <= i < |before| && before[i].None? && after[i].Some? ==>
          (after[i].value.value == first || after[i].value.value == second) && !after[i].value.merged)
    && Occupancy(after) == Occupancy(before) + n
  }

  /** Placing one more spawned block on an empty node extends the relation. */
  lemma SpawnOneMore<Id>(before: Cells<Id>, after: Cells<Id>, n: int, first: int, second: int, i: nat, t: Tile<Id>)
    requires SpawnedOn(before, after, n, first, second)
    requires i < |after| && after[i].None?
    requires (t.value == first || t.value == second) && !t.merged
    ensures SpawnedOn(before, after[i := Some(t)], n + 1, first, second)
  {
    OccupancyUpdate(after, i, Some(t));
  }
}
