/**
 * From gathered contributions to one pixel normal, as `getAverageNormal`
 * builds it: each contribution becomes a gradient vector, every vector is
 * normalised, diagonal ones are then divided by √2, all are summed in push
 * order, and the sum is normalised.
 *
 * The source computes in double precision with `sqrt`. Here the vector
 * components are reals, √2 is a parameter `sqrt2` (only its positivity is
 * used), and `vector3D::normalize` is a parameter `unit`: the lemmas state
 * exactly which properties of normalisation they rely on.
 */
module Normals {
  import opened Grid
  import opened Stencil
  import opened StencilProperties

  datatype Vec3 = Vec3(x: real, y: real, z: real)

  const Zero := Vec3(0.0, 0.0, 0.0)
  const Up := Vec3(0.0, 0.0, 1.0)

  /** `vector3D::operator+`. */
  function Add(a: Vec3, b: Vec3): Vec3 {
    Vec3(a.x + b.x, a.y + b.y, a.z + b.z)
  }

  /** `vector3D::operator/`. */
  function Div(a: Vec3, s: real): Vec3
    requires s != 0.0
  {
    Vec3(a.x / s, a.y / s, a.z / s)
  }

  /** The vector the source builds from a contribution, before any
      normalisation: `{xNum, yNum, depth}` for an orthogonal neighbour and
      `{xNum/sqrt(2), yNum/sqrt(2), depth*sqrt(2)}` for a diagonal one. With
      a positive depth it points out of the surface; a diagonal vector
      scaled back by √2 gives the numerators again. */
  function GradientVector(c: Contribution, depth: real, sqrt2: real): (v: Vec3)
    requires sqrt2 > 0.0
    ensures depth > 0.0 ==> v.z > 0.0
    ensures IsDiagonal(c.at) ==>
      v.z == depth * sqrt2 && v.x * sqrt2 == c.xNum as real && v.y * sqrt2 == c.yNum as real
    ensures !IsDiagonal(c.at) ==> v.z == depth && v.x == c.xNum as real && v.y == c.yNum as real
  {
    if IsDiagonal(c.at) then
      Vec3(c.xNum as real / sqrt2, c.yNum as real / sqrt2, depth * sqrt2)
    else
      Vec3(c.xNum as real, c.yNum as real, depth)
  }

  /** The summation loops: starting from `acc`, add the normalised vector of
      each contribution in order, divided by √2 when `diagonal` holds. When
      depth is positive and normalisation keeps vectors pointing upwards,
      every term added raises z: the result's z is never below `acc`'s, and
      strictly above it when there is at least one term. */
  function Accumulate(acc: Vec3, cs: seq<Contribution>, diagonal: bool,
                      depth: real, sqrt2: real, unit: Vec3 -> Vec3): (r: Vec3)
    requires sqrt2 > 0.0
    ensures depth > 0.0 && KeepsUpward(unit) ==> r.z >= acc.z && (cs != [] ==> r.z > acc.z)
    decreases |cs|
  {
    if cs == [] then acc
    else
      var u := unit(GradientVector(cs[0], depth, sqrt2));
      var term := if diagonal then Div(u, sqrt2) else u;
      Accumulate(Add(acc, term), cs[1..], diagonal, depth, sqrt2, unit)
  }

  /** `finalVec` before its last normalisation: the orthogonal terms
      summed first, then the diagonal ones. It is the zero vector when
      nothing was gathered, and points upwards when something was. */
  function Summed(g: Gathered, depth: real, sqrt2: real, unit: Vec3 -> Vec3): (r: Vec3)
    requires sqrt2 > 0.0
    ensures g.normals == [] && g.diaNormals == [] ==> r == Zero
    ensures depth > 0.0 && KeepsUpward(unit) && (g.normals != [] || g.diaNormals != []) ==> r.z > 0.0
  {
    var orthogonal := Accumulate(Zero, g.normals, false, depth, sqrt2, unit);
    Accumulate(orthogonal, g.diaNormals, true, depth, sqrt2, unit)
  }

  /** The value `getAverageNormal` returns. Whenever some neighbour was
      gathered, it points out of the surface. */
  function AverageNormal(g: Gathered, depth: real, sqrt2: real, unit: Vec3 -> Vec3): (n: Vec3)
    requires sqrt2 > 0.0
    ensures depth > 0.0 && KeepsUpward(unit) && (g.normals != [] || g.diaNormals != []) ==> n.z > 0.0
  {
    unit(Summed(g, depth, sqrt2, unit))
  }

  /** Normalisation keeps a vector with positive z pointing upwards. */
  ghost predicate KeepsUpward(unit: Vec3 -> Vec3) {
    forall v: Vec3 :: v.z > 0.0 ==> unit(v).z > 0.0
  }

  /** Normalisation takes a vertical vector pointing upwards to `Up`. */
  ghost predicate NormalisesVertical(unit: Vec3 -> Vec3) {
    forall z: real :: z > 0.0 ==> unit(Vec3(0.0, 0.0, z)) == Up
  }

  /** Every gradient vector of a gathered pixel has z = depth when it is
      orthogonal and z = depth·√2 when it is diagonal; its x and y are the
      numerators, divided by √2 for a diagonal one. */
  lemma {:induction false} GradientVectors(values: seq<int>, w: int, h: int, x: int, y: int,
                                           depth: real, sqrt2: real)
    requires ValidGrid(values, w, h) && InGrid(w, h, x, y) && sqrt2 > 0.0
    ensures forall c <- Gather(values, w, h, x, y).normals ::
      var v := GradientVector(c, depth, sqrt2);
      v.z == depth && v.x == c.xNum as real && v.y == c.yNum as real
    ensures forall c <- Gather(values, w, h, x, y).diaNormals ::
      var v := GradientVector(c, depth, sqrt2);
      v.z == depth * sqrt2 && v.x * sqrt2 == c.xNum as real && v.y * sqrt2 == c.yNum as real
  {
    NumeratorShape(values, w, h, x, y);
  }

  /** The vector that `getAverageNormal` finally normalises is the zero
      vector exactly when the grid is a single pixel: then nothing is
      gathered; otherwise its z is positive. A flat neighbourhood does not
      make it zero. */
  lemma {:induction false} SummedIsZeroIffSinglePixel(values: seq<int>, w: int, h: int, x: int, y: int,
                                                      depth: real, sqrt2: real, unit: Vec3 -> Vec3)
    requires ValidGrid(values, w, h) && InGrid(w, h, x, y)
    requires sqrt2 > 0.0 && depth > 0.0 && KeepsUpward(unit)
    ensures Summed(Gather(values, w, h, x, y), depth, sqrt2, unit) == Zero <==> w == 1 && h == 1
    ensures !(w == 1 && h == 1) ==> Summed(Gather(values, w, h, x, y), depth, sqrt2, unit).z > 0.0
  {
    var g := Gather(values, w, h, x, y);
    if w == 1 && h == 1 {
      assert g.normals == [] && g.diaNormals == [];
    } else {
      assert g.normals != [] || g.diaNormals != [];
    }
  }

  /** Accumulating the terms of contributions whose numerators are all zero
      keeps x and y at zero and z non-negative. */
  lemma {:induction false} AccumulateFlat(acc: Vec3, cs: seq<Contribution>, diagonal: bool,
                                          depth: real, sqrt2: real, unit: Vec3 -> Vec3)
    requires sqrt2 > 0.0 && depth > 0.0 && NormalisesVertical(unit)
    requires acc.x == 0.0 && acc.y == 0.0 && acc.z >= 0.0
    requires forall c <- cs :: c.xNum == 0 && c.yNum == 0
    ensures var r := Accumulate(acc, cs, diagonal, depth, sqrt2, unit);
      r.x == 0.0 && r.y == 0.0 && r.z >= acc.z && (cs != [] ==> r.z > acc.z)
    decreases |cs|
  {
    if cs != [] {
      var v := GradientVector(cs[0], depth, sqrt2);
      assert v == Vec3(0.0, 0.0, v.z) && v.z > 0.0;
      var u := unit(v);
      assert u == Up;
      var term := if diagonal then Div(u, sqrt2) else u;
      assert term.x == 0.0 && term.y == 0.0 && term.z > 0.0;
      assert cs[0] in cs;
      assert forall c <- cs[1..] :: c in cs;
      AccumulateFlat(Add(acc, term), cs[1..], diagonal, depth, sqrt2, unit);
    }
  }

  /** In a flat height field every pixel of a grid with more than one pixel
      gets the normal (0, 0, 1), provided normalisation takes an upward
      vertical vector to (0, 0, 1). */
  lemma FlatFieldNormal(values: seq<int>, w: int, h: int, x: int, y: int, level: int,
                        depth: real, sqrt2: real, unit: Vec3 -> Vec3)
    requires ValidGrid(values, w, h) && InGrid(w, h, x, y) && !(w == 1 && h == 1)
    requires forall i :: 0 <= i < w * h ==> values[i] == level
    requires sqrt2 > 0.0 && depth > 0.0 && NormalisesVertical(unit)
    ensures AverageNormal(Gather(values, w, h, x, y), depth, sqrt2, unit) == Up
  {
    var g := Gather(values, w, h, x, y);
    FlatField(values, w, h, x, y, level);
    AccumulateFlat(Zero, g.normals, false, depth, sqrt2, unit);
    var orthogonal := Accumulate(Zero, g.normals, false, depth, sqrt2, unit);
    AccumulateFlat(orthogonal, g.diaNormals, true, depth, sqrt2, unit);
    var s := Summed(g, depth, sqrt2, unit);
    assert g.normals != [] || g.diaNormals != [];
    assert s == Vec3(0.0, 0.0, s.z) && s.z > 0.0;
  }
}
