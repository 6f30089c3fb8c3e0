/**
 * Neighbour gathering of `getAverageNormal`: for pixel (x, y) of a w×h height
 * grid, the bounds tests `y > 0`, `x > 0`, `x < w - 1` and `y < h - 1` decide
 * which of the eight neighbours are read, and each neighbour read yields one
 * gradient contribution. A contribution is kept here by its integer
 * numerators; the `/sqrt(2)` and `depth*sqrt(2)` factors of the diagonal ones
 * are applied in module Normals.
 */
module Stencil {
  import opened Grid

  /** One gradient contribution: the neighbour it was read from, the index of
      the grid buffer that was read, and the numerators of its x and y
      components. */
  datatype Contribution = Contribution(at: Neighbour, index: int, xNum: int, yNum: int)

  /** What one call gathers: the orthogonal contributions (the source's
      `normals`) and the diagonal ones (`dia_normals`), each in push order. */
  datatype Gathered = Gathered(normals: seq<Contribution>, diaNormals: seq<Contribution>)

  /** The grid `values` read as a w×h row-major height grid. The buffer may
      be longer than w*h: the source's `valueMap` only ever grows. */
  predicate ValidGrid(values: seq<int>, w: int, h: int) {
    0 <= w && 0 <= h && w * h <= |values|
  }

  /** The height sample of cell (x, y). */
  function Sample(values: seq<int>, w: int, h: int, x: int, y: int): int
    requires ValidGrid(values, w, h) && InGrid(w, h, x, y)
  {
    values[CellIndex(w, h, x, y)]
  }

  /** Reference definition of the contribution of neighbour `n` to pixel
      (x, y): it reads the cell at offset (Dx(n), Dy(n)), and each numerator
      is that offset times the drop in height from the centre to the
      neighbour. */
  function Expected(values: seq<int>, w: int, h: int, x: int, y: int, n: Neighbour): Contribution
    requires ValidGrid(values, w, h) && InGrid(w, h, x, y)
    requires InGrid(w, h, x + Dx(n), y + Dy(n))
  {
    var drop := Sample(values, w, h, x, y) - Sample(values, w, h, x + Dx(n), y + Dy(n));
    Contribution(n, CellIndex(w, h, x + Dx(n), y + Dy(n)), Dx(n) * drop, Dy(n) * drop)
  }

  /** `cs` holds, in order, exactly the contributions of the neighbours
      `ns`, all of which lie inside the grid. */
  predicate Matches(values: seq<int>, w: int, h: int, x: int, y: int, cs: seq<Contribution>, ns: seq<Neighbour>)
    requires ValidGrid(values, w, h) && InGrid(w, h, x, y)
  {
    && |cs| == |ns|
    && forall i :: 0 <= i < |ns| ==>
         InGrid(w, h, x + Dx(ns[i]), y + Dy(ns[i])) && cs[i] == Expected(values, w, h, x, y, ns[i])
  }

  /** The neighbour gathering of `getAverageNormal` for pixel (x, y). The
      orthogonal contributions are those of the in-grid neighbours among top,
      left, right and bottom, in that order; the diagonal ones those among
      top-left, top-right, bottom-left and bottom-right. Every one of them is
      the reference contribution of its neighbour, so every buffer index read
      is a cell of the grid. */
  function Gather(values: seq<int>, w: int, h: int, x: int, y: int): (g: Gathered)
    requires ValidGrid(values, w, h) && InGrid(w, h, x, y)
    ensures Matches(values, w, h, x, y, g.normals, OrthogonalPresent(w, h, x, y))
    ensures Matches(values, w, h, x, y, g.diaNormals, DiagonalPresent(w, h, x, y))
  {
    var above := RowAbove(values, w, h, x, y);
    var row := SameRow(values, w, h, x, y);
    var below := RowBelow(values, w, h, x, y);
    var normals := above.normals + row.normals + below.normals;
    var diaNormals := above.diaNormals + below.diaNormals;
    OrthogonalInOrder(values, w, h, x, y, above.normals, row.normals, below.normals);
    DiagonalInOrder(values, w, h, x, y, above.diaNormals, below.diaNormals);
    Gathered(normals, diaNormals)
  }

  /** The `y > 0` branch: the top neighbour, then the top-left one when
      `x > 0` and the top-right one when `x < w - 1`. */
  function RowAbove(values: seq<int>, w: int, h: int, x: int, y: int): (g: Gathered)
    requires ValidGrid(values, w, h) && InGrid(w, h, x, y)
    ensures Matches(values, w, h, x, y, g.normals, Keep(w, h, x, y, Top))
    ensures Matches(values, w, h, x, y, g.diaNormals, Keep(w, h, x, y, TopLeft) + Keep(w, h, x, y, TopRight))
  {
    if y > 0 then
      var mid := Sample(values, w, h, x, y);
      var tm := Sample(values, w, h, x, y - 1);
      Gathered([Contribution(Top, CellIndex(w, h, x, y - 1), 0, tm - mid)], AboveDiagonals(values, w, h, x, y))
    else
      Gathered([], [])
  }

  /** Inside the `y > 0` branch: the top-left and top-right neighbours. */
  function AboveDiagonals(values: seq<int>, w: int, h: int, x: int, y: int): (cs: seq<Contribution>)
    requires ValidGrid(values, w, h) && InGrid(w, h, x, y) && y > 0
    ensures Matches(values, w, h, x, y, cs, Keep(w, h, x, y, TopLeft) + Keep(w, h, x, y, TopRight))
  {
    var mid := Sample(values, w, h, x, y);
    var topLeft :=
      if x > 0 then
        var tl := Sample(values, w, h, x - 1, y - 1);
        [Contribution(TopLeft, CellIndex(w, h, x - 1, y - 1), tl - mid, tl - mid)]
      else [];
    var topRight :=
      if x < w - 1 then
        var tr := Sample(values, w, h, x + 1, y - 1);
        [Contribution(TopRight, CellIndex(w, h, x + 1, y - 1), mid - tr, tr - mid)]
      else [];
    assert Matches(values, w, h, x, y, topLeft, Keep(w, h, x, y, TopLeft));
    assert Matches(values, w, h, x, y, topRight, Keep(w, h, x, y, TopRight));
    MatchesAppend(values, w, h, x, y, topLeft, topRight, Keep(w, h, x, y, TopLeft), Keep(w, h, x, y, TopRight));
    topLeft + topRight
  }

  /** The `x > 0` and `x < w - 1` branches: the left and right neighbours. */
  function SameRow(values: seq<int>, w: int, h: int, x: int, y: int): (g: Gathered)
    requires ValidGrid(values, w, h) && InGrid(w, h, x, y)
    ensures Matches(values, w, h, x, y, g.normals, Keep(w, h, x, y, Left) + Keep(w, h, x, y, Right))
    ensures g.diaNormals == []
  {
    var mid := Sample(values, w, h, x, y);
    var left :=
      if x > 0 then
        var ml := Sample(values, w, h, x - 1, y);
        [Contribution(Left, CellIndex(w, h, x - 1, y), ml - mid, 0)]
      else [];
    var right :=
      if x < w - 1 then
        var mr := Sample(values, w, h, x + 1, y);
        [Contribution(Right, CellIndex(w, h, x + 1, y), mid - mr, 0)]
      else [];
    assert Matches(values, w, h, x, y, left, Keep(w, h, x, y, Left));
    assert Matches(values, w, h, x, y, right, Keep(w, h, x, y, Right));
    MatchesAppend(values, w, h, x, y, left, right, Keep(w, h, x, y, Left), Keep(w, h, x, y, Right));
    Gathered(left + right, [])
  }

  /** The `y < h - 1` branch: the bottom neighbour, then the bottom-left one
      when `x > 0` and the bottom-right one when `x < w - 1`. */
  function RowBelow(values: seq<int>, w: int, h: int, x: int, y: int): (g: Gathered)
    requires ValidGrid(values, w, h) && InGrid(w, h, x, y)
    ensures Matches(values, w, h, x, y, g.normals, Keep(w, h, x, y, Bottom))
    ensures Matches(values, w, h, x, y, g.diaNormals, Keep(w, h, x, y, BottomLeft) + Keep(w, h, x, y, BottomRight))
  {
    if y < h - 1 then
      var mid := Sample(values, w, h, x, y);
      var bm := Sample(values, w, h, x, y + 1);
      Gathered([Contribution(Bottom, CellIndex(w, h, x, y + 1), 0, mid - bm)], BelowDiagonals(values, w, h, x, y))
    else
      Gathered([], [])
  }

  /** Inside the `y < h - 1` branch: the bottom-left and bottom-right
      neighbours. */
  function BelowDiagonals(values: seq<int>, w: int, h: int, x: int, y: int): (cs: seq<Contribution>)
    requires ValidGrid(values, w, h) && InGrid(w, h, x, y) && y < h - 1
    ensures Matches(values, w, h, x, y, cs, Keep(w, h, x, y, BottomLeft) + Keep(w, h, x, y, BottomRight))
  {
    var mid := Sample(values, w, h, x, y);
    var bottomLeft :=
      if x > 0 then
        var bl := Sample(values, w, h, x - 1, y + 1);
        [Contribution(BottomLeft, CellIndex(w, h, x - 1, y + 1), bl - mid, mid - bl)]
      else [];
    var bottomRight :=
      if x < w - 1 then
        var br := Sample(values, w, h, x + 1, y + 1);
        [Contribution(BottomRight, CellIndex(w, h, x + 1, y + 1), mid - br, mid - br)]
      else [];
    assert Matches(values, w, h, x, y, bottomLeft, Keep(w, h, x, y, BottomLeft));
    assert Matches(values, w, h, x, y, bottomRight, Keep(w, h, x, y, BottomRight));
    MatchesAppend(values, w, h, x, y, bottomLeft, bottomRight,
                  Keep(w, h, x, y, BottomLeft), Keep(w, h, x, y, BottomRight));
    bottomLeft + bottomRight
  }

  /** The three rows' orthogonal contributions, one after another, are
      those of `OrthogonalPresent`. */
  lemma OrthogonalInOrder(values: seq<int>, w: int, h: int, x: int, y: int,
                          above: seq<Contribution>, row: seq<Contribution>, below: seq<Contribution>)
    requires ValidGrid(values, w, h) && InGrid(w, h, x, y)
    requires Matches(values, w, h, x, y, above, Keep(w, h, x, y, Top))
    requires Matches(values, w, h, x, y, row, Keep(w, h, x, y, Left) + Keep(w, h, x, y, Right))
    requires Matches(values, w, h, x, y, below, Keep(w, h, x, y, Bottom))
    ensures Matches(values, w, h, x, y, above + row + below, OrthogonalPresent(w, h, x, y))
  {
    MatchesAppend(values, w, h, x, y, above, row,
                  Keep(w, h, x, y, Top), Keep(w, h, x, y, Left) + Keep(w, h, x, y, Right));
    MatchesAppend(values, w, h, x, y, above + row, below,
                  Keep(w, h, x, y, Top) + (Keep(w, h, x, y, Left) + Keep(w, h, x, y, Right)),
                  Keep(w, h, x, y, Bottom));
    assert Keep(w, h, x, y, Top) + (Keep(w, h, x, y, Left) + Keep(w, h, x, y, Right)) + Keep(w, h, x, y, Bottom)
        == OrthogonalPresent(w, h, x, y);
  }

  /** The diagonal contributions above, then below, are those of
      `DiagonalPresent`. */
  lemma DiagonalInOrder(values: seq<int>, w: int, h: int, x: int, y: int,
                        above: seq<Contribution>, below: seq<Contribution>)
    requires ValidGrid(values, w, h) && InGrid(w, h, x, y)
    requires Matches(values, w, h, x, y, above, Keep(w, h, x, y, TopLeft) + Keep(w, h, x, y, TopRight))
    requires Matches(values, w, h, x, y, below, Keep(w, h, x, y, BottomLeft) + Keep(w, h, x, y, BottomRight))
    ensures Matches(values, w, h, x, y, above + below, DiagonalPresent(w, h, x, y))
  {
    MatchesAppend(values, w, h, x, y, above, below,
                  Keep(w, h, x, y, TopLeft) + Keep(w, h, x, y, TopRight),
                  Keep(w, h, x, y, BottomLeft) + Keep(w, h, x, y, BottomRight));
    assert Keep(w, h, x, y, TopLeft) + Keep(w, h, x, y, TopRight)
           + (Keep(w, h, x, y, BottomLeft) + Keep(w, h, x, y, BottomRight))
        == DiagonalPresent(w, h, x, y);
  }

  lemma MatchesAppend(values: seq<int>, w: int, h: int, x: int, y: int,
                      a: seq<Contribution>, b: seq<Contribution>, na: seq<Neighbour>, nb: seq<Neighbour>)
    requires ValidGrid(values, w, h) && InGrid(w, h, x, y)
    requires Matches(values, w, h, x, y, a, na) && Matches(values, w, h, x, y, b, nb)
    ensures Matches(values, w, h, x, y, a + b, na + nb)
  {
    forall i | 0 <= i < |na + nb|
      ensures InGrid(w, h, x + Dx((na + nb)[i]), y + Dy((na + nb)[i]))
      ensures (a + b)[i] == Expected(values, w, h, x, y, (na + nb)[i])
    {
      if i >= |na| {
        assert (a + b)[i] == b[i - |na|];
      }
    }
  }
}
