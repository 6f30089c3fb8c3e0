/**
 * Geometry of the height grid that the bump-to-normal filter walks: a w×h
 * row-major array of samples, a pixel (x, y) stored at index `w*y + x`, and
 * the eight neighbours (the Moore neighbourhood) a pixel may read.
 */
module Grid {

  /** The eight neighbours of a pixel, named after the source's local
      variables `tm`, `ml`, `mr`, `bm`, `tl`, `tr`, `bl` and `br`. */
  datatype Neighbour =
    | Top | Left | Right | Bottom
    | TopLeft | TopRight | BottomLeft | BottomRight

  /** Column offset of a neighbour: -1 to the left, +1 to the right. */
  function Dx(n: Neighbour): int {
    match n
    case Left | TopLeft | BottomLeft => -1
    case Right | TopRight | BottomRight => 1
    case Top | Bottom => 0
  }

  /** Row offset of a neighbour: -1 above (row y-1), +1 below (row y+1). */
  function Dy(n: Neighbour): int {
    match n
    case Top | TopLeft | TopRight => -1
    case Bottom | BottomLeft | BottomRight => 1
    case Left | Right => 0
  }

  /** A diagonal neighbour differs from the centre in both coordinates. */
  predicate IsDiagonal(n: Neighbour) {
    Dx(n) != 0 && Dy(n) != 0
  }

  /** The neighbour on the other side of the shared edge. */
  function Opposite(n: Neighbour): (m: Neighbour)
    ensures Dx(m) == -Dx(n) && Dy(m) == -Dy(n)
  {
    match n
    case Top => Bottom
    case Bottom => Top
    case Left => Right
    case Right => Left
    case TopLeft => BottomRight
    case BottomRight => TopLeft
    case TopRight => BottomLeft
    case BottomLeft => TopRight
  }

  /** (x, y) is a cell of the w×h grid. */
  predicate InGrid(w: int, h: int, x: int, y: int) {
    0 <= x < w && 0 <= y < h
  }

  /** Row-major position of cell (x, y), the source's `w*y + x`: a position
      of the w*h-cell buffer. */
  function CellIndex(w: int, h: int, x: int, y: int): (i: int)
    requires InGrid(w, h, x, y)
    ensures 0 <= i < w * h
  {
    MulMonotone(w, y, h - 1);
    assert w * (h - 1) + w == w * h;
    w * y + x
  }

  /** The row-major index decodes back to the cell: column `i % w`, row
      `i / w`. So distinct cells have distinct indices. */
  lemma CellIndexDecodes(w: int, h: int, x: int, y: int)
    requires InGrid(w, h, x, y)
    ensures CellIndex(w, h, x, y) / w == y && CellIndex(w, h, x, y) % w == x
  {
    DivModUnique(w * y + x, w, y, x);
  }

  /** Distinct cells have distinct buffer indices. */
  lemma CellIndexInjective(w: int, h: int, x: int, y: int, x': int, y': int)
    requires InGrid(w, h, x, y) && InGrid(w, h, x', y')
    ensures CellIndex(w, h, x, y) == CellIndex(w, h, x', y') <==> x == x' && y == y'
  {
    CellIndexDecodes(w, h, x, y);
    CellIndexDecodes(w, h, x', y');
  }

  lemma MulMonotone(w: nat, a: int, b: int)
    ensures a <= b ==> w * a <= w * b
  {
    assert w * b - w * a == w * (b - a);
  }

  /** Euclidean division has a unique quotient and remainder. */
  lemma DivModUnique(n: int, d: int, q: int, r: int)
    requires 0 < d && 0 <= r < d && n == d * q + r
    ensures n / d == q && n % d == r
  {
    var q', r' := n / d, n % d;
    assert n == d * q' + r' && 0 <= r' < d;
    assert d * (q - q') == r' - r;
    MulMonotone(d, 1, q - q');
    MulMonotone(d, 1, q' - q);
  }

  /** Neighbour `n` of (x, y) when it lies inside the grid, otherwise nothing. */
  function Keep(w: int, h: int, x: int, y: int, n: Neighbour): (r: seq<Neighbour>)
    ensures |r| <= 1 && forall m <- r :: m == n
    ensures n in r <==> InGrid(w, h, x + Dx(n), y + Dy(n))
  {
    if InGrid(w, h, x + Dx(n), y + Dy(n)) then [n] else []
  }

  /** The in-grid orthogonal neighbours of (x, y), in the order the source
      pushes them onto `normals`: top, left, right, bottom. */
  function OrthogonalPresent(w: int, h: int, x: int, y: int): seq<Neighbour> {
    Keep(w, h, x, y, Top) + Keep(w, h, x, y, Left) + Keep(w, h, x, y, Right) + Keep(w, h, x, y, Bottom)
  }

  /** The in-grid diagonal neighbours of (x, y), in the order the source
      pushes them onto `dia_normals`: top-left, top-right, bottom-left,
      bottom-right. */
  function DiagonalPresent(w: int, h: int, x: int, y: int): seq<Neighbour> {
    Keep(w, h, x, y, TopLeft) + Keep(w, h, x, y, TopRight)
    + Keep(w, h, x, y, BottomLeft) + Keep(w, h, x, y, BottomRight)
  }

  /** The orthogonal list holds no diagonal neighbour, the diagonal list
      only diagonal ones. */
  lemma PresentKinds(w: int, h: int, x: int, y: int)
    ensures forall n <- OrthogonalPresent(w, h, x, y) :: !IsDiagonal(n)
    ensures forall n <- DiagonalPresent(w, h, x, y) :: IsDiagonal(n)
  {
  }

  /** Corner pixel: both coordinates on the boundary. */
  predicate IsCorner(w: int, h: int, x: int, y: int) {
    (x == 0 || x == w - 1) && (y == 0 || y == h - 1)
  }

  /** Border pixel that is not a corner: exactly one coordinate on the boundary. */
  predicate IsEdge(w: int, h: int, x: int, y: int) {
    ((x == 0 || x == w - 1) || (y == 0 || y == h - 1)) && !IsCorner(w, h, x, y)
  }

  /** Interior pixel: no coordinate on the boundary. */
  predicate IsInterior(w: int, h: int, x: int, y: int) {
    0 < x < w - 1 && 0 < y < h - 1
  }
}
