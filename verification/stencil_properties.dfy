/**
 * What the neighbour gathering of `getAverageNormal` guarantees: every read
 * stays inside the grid, the number of contributions depends only on where
 * the pixel sits (corner, edge, interior, thin grid), and all eight
 * contributions follow one sign convention.
 */
module StencilProperties {
  import opened Grid
  import opened Stencil

  /** Contribution `c` of pixel (x, y) reads the cell at its neighbour's
      offset, `w*(y+dy) + x+dx`, which lies in [0, w*h). */
  predicate ReadsInGrid(w: int, h: int, x: int, y: int, c: Contribution) {
    && InGrid(w, h, x + Dx(c.at), y + Dy(c.at))
    && c.index == w * (y + Dy(c.at)) + (x + Dx(c.at))
    && 0 <= c.index < w * h
  }

  /** Every buffer index the gathering reads is an in-grid cell. */
  lemma {:induction false} ReadsInBounds(values: seq<int>, w: int, h: int, x: int, y: int)
    requires ValidGrid(values, w, h) && InGrid(w, h, x, y)
    ensures forall c <- Gather(values, w, h, x, y).normals :: ReadsInGrid(w, h, x, y, c)
    ensures forall c <- Gather(values, w, h, x, y).diaNormals :: ReadsInGrid(w, h, x, y, c)
  {
    var g := Gather(values, w, h, x, y);
    MatchedReadInGrid(values, w, h, x, y, g.normals, OrthogonalPresent(w, h, x, y));
    MatchedReadInGrid(values, w, h, x, y, g.diaNormals, DiagonalPresent(w, h, x, y));
  }

  lemma {:induction false} MatchedReadInGrid(values: seq<int>, w: int, h: int, x: int, y: int,
                                             cs: seq<Contribution>, ns: seq<Neighbour>)
    requires ValidGrid(values, w, h) && InGrid(w, h, x, y)
    requires Matches(values, w, h, x, y, cs, ns)
    ensures forall c <- cs :: ReadsInGrid(w, h, x, y, c)
  {
    forall i | 0 <= i < |cs|
      ensures ReadsInGrid(w, h, x, y, cs[i])
    {
      assert cs[i] == Expected(values, w, h, x, y, ns[i]);
    }
  }

  /** Contribution counts on a grid at least 2×2: a corner pixel gathers
      2 orthogonal + 1 diagonal, an edge pixel 3 + 2, an interior pixel
      4 + 4. */
  lemma ContributionCounts(values: seq<int>, w: int, h: int, x: int, y: int)
    requires ValidGrid(values, w, h) && InGrid(w, h, x, y)
    requires w >= 2 && h >= 2
    ensures var g := Gather(values, w, h, x, y);
      && (IsCorner(w, h, x, y) ==> |g.normals| == 2 && |g.diaNormals| == 1)
      && (IsEdge(w, h, x, y) ==> |g.normals| == 3 && |g.diaNormals| == 2)
      && (IsInterior(w, h, x, y) ==> |g.normals| == 4 && |g.diaNormals| == 4)
  {
  }

  /** The total number of contributions: 3 at a corner, 5 on an edge and 8
      inside. */
  lemma ContributionTotals(values: seq<int>, w: int, h: int, x: int, y: int)
    requires ValidGrid(values, w, h) && InGrid(w, h, x, y)
    requires w >= 2 && h >= 2
    ensures var g := Gather(values, w, h, x, y);
      && (IsCorner(w, h, x, y) ==> |g.normals + g.diaNormals| == 3)
      && (IsEdge(w, h, x, y) ==> |g.normals + g.diaNormals| == 5)
      && (IsInterior(w, h, x, y) ==> |g.normals + g.diaNormals| == 8)
  {
    ContributionCounts(values, w, h, x, y);
  }

  /** On a one-pixel-wide grid no horizontal or diagonal neighbour is read:
      every contribution comes from the pixel above or below. */
  lemma OneWideGrid(values: seq<int>, w: int, h: int, x: int, y: int)
    requires ValidGrid(values, w, h) && InGrid(w, h, x, y)
    requires w == 1
    ensures Gather(values, w, h, x, y).diaNormals == []
    ensures forall c <- Gather(values, w, h, x, y).normals :: c.at == Top || c.at == Bottom
  {
    var g := Gather(values, w, h, x, y);
    assert Keep(w, h, x, y, Left) == [] && Keep(w, h, x, y, Right) == [];
    assert DiagonalPresent(w, h, x, y) == [] by {
      assert Keep(w, h, x, y, TopLeft) == [] && Keep(w, h, x, y, TopRight) == [];
      assert Keep(w, h, x, y, BottomLeft) == [] && Keep(w, h, x, y, BottomRight) == [];
    }
    MatchedHaveShape(values, w, h, x, y, g.normals, OrthogonalPresent(w, h, x, y));
    assert OrthogonalPresent(w, h, x, y) == Keep(w, h, x, y, Top) + Keep(w, h, x, y, Bottom);
  }

  /** On a one-pixel-tall grid no vertical or diagonal neighbour is read:
      every contribution comes from the pixel to the left or right. */
  lemma OneTallGrid(values: seq<int>, w: int, h: int, x: int, y: int)
    requires ValidGrid(values, w, h) && InGrid(w, h, x, y)
    requires h == 1
    ensures Gather(values, w, h, x, y).diaNormals == []
    ensures forall c <- Gather(values, w, h, x, y).normals :: c.at == Left || c.at == Right
  {
    var g := Gather(values, w, h, x, y);
    assert Keep(w, h, x, y, Top) == [] && Keep(w, h, x, y, Bottom) == [];
    assert DiagonalPresent(w, h, x, y) == [] by {
      assert Keep(w, h, x, y, TopLeft) == [] && Keep(w, h, x, y, TopRight) == [];
      assert Keep(w, h, x, y, BottomLeft) == [] && Keep(w, h, x, y, BottomRight) == [];
    }
    MatchedHaveShape(values, w, h, x, y, g.normals, OrthogonalPresent(w, h, x, y));
    assert OrthogonalPresent(w, h, x, y) == Keep(w, h, x, y, Left) + Keep(w, h, x, y, Right);
  }

  /** Nothing at all is gathered exactly when the grid is a single pixel;
      that pixel's summed vector is then the zero vector. */
  lemma NothingGatheredIffSinglePixel(values: seq<int>, w: int, h: int, x: int, y: int)
    requires ValidGrid(values, w, h) && InGrid(w, h, x, y)
    ensures var g := Gather(values, w, h, x, y);
      |g.normals| + |g.diaNormals| == 0 <==> w == 1 && h == 1
  {
  }

  /** Left sample minus right sample of the pair (centre, neighbour), when
      the neighbour is off to one side; 0 when it is in the same column. */
  function LeftMinusRight(dx: int, mid: int, neighbour: int): int {
    if dx < 0 then neighbour - mid else if dx > 0 then mid - neighbour else 0
  }

  /** Top sample minus bottom sample of the pair (centre, neighbour), when
      the neighbour is above or below; 0 when it is in the same row. */
  function TopMinusBottom(dy: int, mid: int, neighbour: int): int {
    if dy < 0 then neighbour - mid else if dy > 0 then mid - neighbour else 0
  }

  /** Contribution `c` of pixel (x, y) follows the sign convention: its
      x-numerator is the left sample minus the right sample of the pair
      (centre, neighbour), and its y-numerator the top sample minus the
      bottom sample. */
  predicate FollowsSignConvention(values: seq<int>, w: int, h: int, x: int, y: int, c: Contribution)
    requires ValidGrid(values, w, h) && InGrid(w, h, x, y)
  {
    && 0 <= c.index < w * h
    && c.xNum == LeftMinusRight(Dx(c.at), Sample(values, w, h, x, y), values[c.index])
    && c.yNum == TopMinusBottom(Dy(c.at), Sample(values, w, h, x, y), values[c.index])
  }

  /** All eight contributions share one sign convention, so a higher
      neighbour to the right or below gives a negative component. */
  lemma {:induction false} SignConvention(values: seq<int>, w: int, h: int, x: int, y: int)
    requires ValidGrid(values, w, h) && InGrid(w, h, x, y)
    ensures forall c <- Gather(values, w, h, x, y).normals :: FollowsSignConvention(values, w, h, x, y, c)
    ensures forall c <- Gather(values, w, h, x, y).diaNormals :: FollowsSignConvention(values, w, h, x, y, c)
  {
    var g := Gather(values, w, h, x, y);
    MatchedFollowSignConvention(values, w, h, x, y, g.normals, OrthogonalPresent(w, h, x, y));
    MatchedFollowSignConvention(values, w, h, x, y, g.diaNormals, DiagonalPresent(w, h, x, y));
  }

  lemma {:induction false} MatchedFollowSignConvention(values: seq<int>, w: int, h: int, x: int, y: int,
                                                       cs: seq<Contribution>, ns: seq<Neighbour>)
    requires ValidGrid(values, w, h) && InGrid(w, h, x, y)
    requires Matches(values, w, h, x, y, cs, ns)
    ensures forall c <- cs :: FollowsSignConvention(values, w, h, x, y, c)
  {
    forall i | 0 <= i < |cs|
      ensures FollowsSignConvention(values, w, h, x, y, cs[i])
    {
      assert cs[i] == Expected(values, w, h, x, y, ns[i]);
    }
  }

  /** The shape of contribution `c`: a numerator along an axis in which the
      neighbour is not offset is zero, and a diagonal contribution points
      along its diagonal (its numerators are equal for the top-left and
      bottom-right neighbours and opposite for the other two). */
  predicate HasShape(c: Contribution) {
    && (Dx(c.at) == 0 ==> c.xNum == 0)
    && (Dy(c.at) == 0 ==> c.yNum == 0)
    && (IsDiagonal(c.at) ==> c.xNum == Dx(c.at) * Dy(c.at) * c.yNum)
  }

  /** Orthogonal contributions come from the four orthogonal neighbours and
      have exactly the numerator across their axis zero by construction;
      diagonal contributions come from the four diagonal neighbours and point
      along their diagonal. */
  lemma {:induction false} NumeratorShape(values: seq<int>, w: int, h: int, x: int, y: int)
    requires ValidGrid(values, w, h) && InGrid(w, h, x, y)
    ensures forall c <- Gather(values, w, h, x, y).normals :: !IsDiagonal(c.at) && HasShape(c)
    ensures forall c <- Gather(values, w, h, x, y).diaNormals :: IsDiagonal(c.at) && HasShape(c)
  {
    var g := Gather(values, w, h, x, y);
    MatchedHaveShape(values, w, h, x, y, g.normals, OrthogonalPresent(w, h, x, y));
    MatchedHaveShape(values, w, h, x, y, g.diaNormals, DiagonalPresent(w, h, x, y));
    PresentKinds(w, h, x, y);
  }

  lemma {:induction false} MatchedHaveShape(values: seq<int>, w: int, h: int, x: int, y: int,
                                            cs: seq<Contribution>, ns: seq<Neighbour>)
    requires ValidGrid(values, w, h) && InGrid(w, h, x, y)
    requires Matches(values, w, h, x, y, cs, ns)
    ensures forall c <- cs :: c.at in ns && HasShape(c)
  {
    forall i | 0 <= i < |cs|
      ensures cs[i].at in ns && HasShape(cs[i])
    {
      assert cs[i] == Expected(values, w, h, x, y, ns[i]);
    }
  }

  /** In a flat height field every numerator of every contribution is 0. */
  lemma {:induction false} FlatField(values: seq<int>, w: int, h: int, x: int, y: int, level: int)
    requires ValidGrid(values, w, h) && InGrid(w, h, x, y)
    requires forall i :: 0 <= i < w * h ==> values[i] == level
    ensures forall c <- Gather(values, w, h, x, y).normals :: c.xNum == 0 && c.yNum == 0
    ensures forall c <- Gather(values, w, h, x, y).diaNormals :: c.xNum == 0 && c.yNum == 0
  {
    var g := Gather(values, w, h, x, y);
    MatchedFlat(values, w, h, x, y, level, g.normals, OrthogonalPresent(w, h, x, y));
    MatchedFlat(values, w, h, x, y, level, g.diaNormals, DiagonalPresent(w, h, x, y));
  }

  lemma {:induction false} MatchedFlat(values: seq<int>, w: int, h: int, x: int, y: int, level: int,
                                       cs: seq<Contribution>, ns: seq<Neighbour>)
    requires ValidGrid(values, w, h) && InGrid(w, h, x, y)
    requires forall i :: 0 <= i < w * h ==> values[i] == level
    requires Matches(values, w, h, x, y, cs, ns)
    ensures forall c <- cs :: c.xNum == 0 && c.yNum == 0
  {
    forall i | 0 <= i < |cs|
      ensures cs[i].xNum == 0 && cs[i].yNum == 0
    {
      var n := ns[i];
      assert cs[i] == Expected(values, w, h, x, y, n);
      assert values[CellIndex(w, h, x, y)] == level;
      assert values[CellIndex(w, h, x + Dx(n), y + Dy(n))] == level;
    }
  }

  /** The gathering reads nothing of the buffer beyond its first w*h cells:
      two buffers that agree there give the same contributions. */
  lemma {:induction false} GatherReadsOnlyGrid(values: seq<int>, values': seq<int>, w: int, h: int, x: int, y: int)
    requires ValidGrid(values, w, h) && ValidGrid(values', w, h) && InGrid(w, h, x, y)
    requires values[..w * h] == values'[..w * h]
    ensures Gather(values, w, h, x, y) == Gather(values', w, h, x, y)
  {
    var g := Gather(values, w, h, x, y);
    var g' := Gather(values', w, h, x, y);
    MatchedAgree(values, values', w, h, x, y, g.normals, g'.normals, OrthogonalPresent(w, h, x, y));
    MatchedAgree(values, values', w, h, x, y, g.diaNormals, g'.diaNormals, DiagonalPresent(w, h, x, y));
  }

  lemma {:induction false} MatchedAgree(values: seq<int>, values': seq<int>, w: int, h: int, x: int, y: int,
                                        cs: seq<Contribution>, cs': seq<Contribution>, ns: seq<Neighbour>)
    requires ValidGrid(values, w, h) && ValidGrid(values', w, h) && InGrid(w, h, x, y)
    requires values[..w * h] == values'[..w * h]
    requires Matches(values, w, h, x, y, cs, ns) && Matches(values', w, h, x, y, cs', ns)
    ensures cs == cs'
  {
    forall i | 0 <= i < |cs|
      ensures cs[i] == cs'[i]
    {
      var n := ns[i];
      var a := CellIndex(w, h, x, y);
      var b := CellIndex(w, h, x + Dx(n), y + Dy(n));
      assert values[a] == values[..w * h][a] == values'[a];
      assert values[b] == values[..w * h][b] == values'[b];
    }
  }

  /** Everything gathered for one pixel, orthogonal contributions first. */
  function AllGathered(g: Gathered): seq<Contribution> {
    g.normals + g.diaNormals
  }

  /** The contribution a pixel computes from a neighbour and the one the
      neighbour computes back from the pixel read each other's cells and
      have the same gradient numerators: both ends of a grid edge see the
      same gradient. `GatheredAt` shows that these are exactly the
      contributions the two pixels gather across the edge. */
  lemma EdgeSharedByBothEnds(values: seq<int>, w: int, h: int, x: int, y: int, n: Neighbour)
    requires ValidGrid(values, w, h) && InGrid(w, h, x, y)
    requires InGrid(w, h, x + Dx(n), y + Dy(n))
    ensures x + Dx(n) + Dx(Opposite(n)) == x && y + Dy(n) + Dy(Opposite(n)) == y
    ensures var here := Expected(values, w, h, x, y, n);
      var there := Expected(values, w, h, x + Dx(n), y + Dy(n), Opposite(n));
      && here.index == CellIndex(w, h, x + Dx(n), y + Dy(n))
      && there.index == CellIndex(w, h, x, y)
      && there.xNum == here.xNum
      && there.yNum == here.yNum
  {
  }

  /** Pixel (x, y) gathers the contribution of every in-grid neighbour `n`,
      and that reference contribution is the only one it gathers from `n`. */
  lemma GatheredAt(values: seq<int>, w: int, h: int, x: int, y: int, n: Neighbour)
    requires ValidGrid(values, w, h) && InGrid(w, h, x, y)
    requires InGrid(w, h, x + Dx(n), y + Dy(n))
    ensures Expected(values, w, h, x, y, n) in AllGathered(Gather(values, w, h, x, y))
    ensures forall c <- AllGathered(Gather(values, w, h, x, y)) :: c.at == n ==> c == Expected(values, w, h, x, y, n)
  {
    var g := Gather(values, w, h, x, y);
    var ns := OrthogonalPresent(w, h, x, y);
    var ds := DiagonalPresent(w, h, x, y);
    assert n in Keep(w, h, x, y, n);
    if n in ns {
      MatchedAt(values, w, h, x, y, g.normals, ns, n);
    } else {
      MatchedAt(values, w, h, x, y, g.diaNormals, ds, n);
    }
    MatchedOnly(values, w, h, x, y, g.normals, ns, n);
    MatchedOnly(values, w, h, x, y, g.diaNormals, ds, n);
  }

  lemma {:induction false} MatchedAt(values: seq<int>, w: int, h: int, x: int, y: int,
                                     cs: seq<Contribution>, ns: seq<Neighbour>, n: Neighbour)
    requires ValidGrid(values, w, h) && InGrid(w, h, x, y)
    requires Matches(values, w, h, x, y, cs, ns) && n in ns
    ensures InGrid(w, h, x + Dx(n), y + Dy(n)) && Expected(values, w, h, x, y, n) in cs
  {
    var i :| 0 <= i < |ns| && ns[i] == n;
    assert cs[i] == Expected(values, w, h, x, y, n);
  }

  lemma {:induction false} MatchedOnly(values: seq<int>, w: int, h: int, x: int, y: int,
                                       cs: seq<Contribution>, ns: seq<Neighbour>, n: Neighbour)
    requires ValidGrid(values, w, h) && InGrid(w, h, x, y)
    requires Matches(values, w, h, x, y, cs, ns)
    requires InGrid(w, h, x + Dx(n), y + Dy(n))
    ensures forall c <- cs :: c.at == n ==> c == Expected(values, w, h, x, y, n)
  {
    forall c <- cs | c.at == n
      ensures c == Expected(values, w, h, x, y, n)
    {
      var i :| 0 <= i < |cs| && cs[i] == c;
    }
  }
}
