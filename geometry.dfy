/** Grid coordinates (Unity's Vector2Int), the four move directions, and the
    layout of the node list that GameManager.CreateNodeGrids builds: columns
    outer, rows inner, starting at the bottom-left corner, so the node at
    (x, y) sits at position x * h + y of the list. */
module Geometry {

  /** A cell coordinate. x grows to the right, y grows upwards; (0, 0) is the
      bottom-left cell. */
  datatype Vec = Vec(x: int, y: int)

  datatype Dir = Up | Down | Left | Right

  /** Unity's unit vectors: up (0, 1), down (0, -1), left (-1, 0), right (1, 0). */
  function Delta(d: Dir): (v: Vec)
    ensures (v.x == 0) != (v.y == 0) && -1 <= v.x <= 1 && -1 <= v.y <= 1
    ensures v.x == 0 <==> d == Up || d == Down
    ensures v.x + v.y == 1 <==> d == Up || d == Right
  {
    match d
    case Up => Vec(0, 1)
    case Down => Vec(0, -1)
    case Left => Vec(-1, 0)
    case Right => Vec(1, 0)
  }

  /** Vector2Int addition. */
  function Add(a: Vec, b: Vec): Vec {
    Vec(a.x + b.x, a.y + b.y)
  }

  predicate InBounds(w: int, h: int, p: Vec) {
    0 <= p.x < w && 0 <= p.y < h
  }

  lemma MulMono(a: int, b: int, h: int)
    requires a <= b && h > 0
    ensures a * h <= b * h
  {}

  lemma MulGap(a: int, b: int, h: int)
    requires a < b && h > 0
    ensures a * h + h <= b * h
  {
    MulMono(a + 1, b, h);
    assert (a + 1) * h == a * h + h;
  }

  lemma DivModUnique(h: int, q: int, r: int, i: int)
    requires h > 0 && 0 <= r < h && i == q * h + r
    ensures i / h == q && i % h == r
  {
    var q', r' := i / h, i % h;
    assert i == q' * h + r';
    if q' > q { MulMono(q + 1, q', h); }
    if q' < q { MulMono(q' + 1, q, h); }
  }

  /** The coordinate of the node at position i of the node list. */
  function PosOf(w: int, h: int, i: int): (p: Vec)
    requires h > 0 && 0 <= i < w * h
    ensures InBounds(w, h, p) && p.x * h + p.y == i
  {
    var p := Vec(i / h, i % h);
    assert p.x < w by {
      if p.x >= w { MulMono(w, p.x, h); }
    }
    p
  }

  /** The position in the node list of the node at coordinate p; PosOf undoes it. */
  function IndexOf(w: int, h: int, p: Vec): (i: int)
    requires InBounds(w, h, p)
    ensures 0 <= i < w * h && PosOf(w, h, i) == p
  {
    var i := p.x * h + p.y;
    MulMono(p.x, w - 1, h);
    DivModUnique(h, p.x, p.y, i);
    i
  }

  /** Number of cells between p and the wall it moves towards. */
  function Dist(w: int, h: int, p: Vec, d: Dir): int {
    match d
    case Up => h - 1 - p.y
    case Down => p.y
    case Left => p.x
    case Right => w - 1 - p.x
  }

  /** The cell k steps from p in direction d. */
  function Ahead(p: Vec, d: Dir, k: int): (q: Vec)
    ensures k == 1 ==> q == Add(p, Delta(d))
  {
    match d
    case Up => Vec(p.x, p.y + k)
    case Down => Vec(p.x, p.y - k)
    case Left => Vec(p.x - k, p.y)
    case Right => Vec(p.x + k, p.y)
  }

  /** k steps from p are k - 1 steps from the cell after p. */
  lemma AheadOfNext(p: Vec, d: Dir, k: int)
    ensures Ahead(p, d, k) == Ahead(Add(p, Delta(d)), d, k - 1)
  {}

  /** One step from an in-bounds cell stays in bounds exactly when the wall
      is not yet reached, and brings the wall one cell closer. */
  lemma StepTowardsWall(w: int, h: int, p: Vec, d: Dir)
    requires InBounds(w, h, p)
    ensures Dist(w, h, p, d) >= 0
    ensures InBounds(w, h, Add(p, Delta(d))) <==> Dist(w, h, p, d) > 0
    ensures Dist(w, h, Add(p, Delta(d)), d) == Dist(w, h, p, d) - 1
  {}

  /** The order OrderBy(x).ThenBy(y). */
  predicate LexLess(a: Vec, b: Vec) {
    a.x < b.x || (a.x == b.x && a.y < b.y)
  }

  /** Traversal order of a shift: node positions ascending for down and left,
      descending for up and right. */
  predicate Before(d: Dir, i: int, j: int) {
    if d == Up || d == Right then i > j else i < j
  }

  /** The node list is sorted by x, then by y. */
  lemma {:induction false} IndexOrderIsLex(w: int, h: int, p: Vec, q: Vec)
    requires InBounds(w, h, p) && InBounds(w, h, q)
    ensures IndexOf(w, h, p) < IndexOf(w, h, q) <==> LexLess(p, q)
  {
    assert IndexOf(w, h, p) == p.x * h + p.y && IndexOf(w, h, q) == q.x * h + q.y;
    if p.x < q.x {
      MulGap(p.x, q.x, h);
    } else if q.x < p.x {
      MulGap(q.x, p.x, h);
    }
  }

  /** Every cell strictly ahead of p in direction d comes before p in the
      traversal order of a shift in direction d. */
  lemma {:induction false} AheadComesFirst(w: int, h: int, p: Vec, d: Dir, k: int)
    requires InBounds(w, h, p) && 0 < k && InBounds(w, h, Ahead(p, d, k))
    ensures Before(d, IndexOf(w, h, Ahead(p, d, k)), IndexOf(w, h, p))
  {
    match d
    case Left => MulMono(p.x - k + 1, p.x, h);
    case Right => MulMono(p.x + 1, p.x + k, h);
    case Up =>
    case Down =>
  }
}
