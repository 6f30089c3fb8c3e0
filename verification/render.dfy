/**
 * The pixel loop of `main`: for every pixel of the input, row by row, the
 * normal from `getAverageNormal` is encoded as a pixel word and stored at
 * `pixels[y*w + x]` of the output surface.
 *
 * Normalisation stays a parameter `unit`. The one vector the source
 * normalises without a defined result is the zero vector: `normalize`
 * divides by its zero length, the components become NaN, and converting
 * NaN to `Uint8` is undefined. The model reports that case as `Undefined`
 * instead of producing a word.
 */
module Render {
  import opened Grid
  import opened Stencil
  import opened StencilProperties
  import opened Normals
  import opened Encoding

  /** The output of the pixel loop: the w*h pixel words of the normal map,
      or `Undefined` when some pixel's normal has no defined encoding. */
  datatype Rendered = Image(words: seq<int>) | Undefined

  /** Normalisation puts every non-zero vector inside the unit cube, as a
      unit vector is. */
  ghost predicate IntoUnitCube(unit: Vec3 -> Vec3) {
    forall v: Vec3 :: v != Zero ==>
      InUnitRange(unit(v).x) && InUnitRange(unit(v).y) && InUnitRange(unit(v).z)
  }

  /** The word line 249 stores for pixel (x, y), whose summed vector is not
      the zero vector: a 32-bit word whose top three bytes are the colour
      channels of the pixel's normal and whose low byte is 0. */
  function PixelWord(values: seq<int>, w: int, h: int, x: int, y: int,
                     depth: real, sqrt2: real, unit: Vec3 -> Vec3): (word: int)
    requires ValidGrid(values, w, h) && InGrid(w, h, x, y) && sqrt2 > 0.0
    requires IntoUnitCube(unit)
    requires Summed(Gather(values, w, h, x, y), depth, sqrt2, unit) != Zero
    ensures 0 <= word < 0x1_0000_0000 && word % 0x100 == 0
    ensures var n := AverageNormal(Gather(values, w, h, x, y), depth, sqrt2, unit);
      && InUnitRange(n.x) && InUnitRange(n.y) && InUnitRange(n.z)
      && ByteAt(word, 0x1000000) == Channel(n.x)
      && ByteAt(word, 0x10000) == Channel(n.y)
      && ByteAt(word, 0x100) == Channel(n.z)
  {
    var n := AverageNormal(Gather(values, w, h, x, y), depth, sqrt2, unit);
    EncodeNormal(n.x, n.y, n.z)
  }

  /** Cell (x', y') comes before cell (x, y) in the loop's row-major order. */
  predicate Before(x': int, y': int, x: int, y: int) {
    y' < y || (y' == y && x' < x)
  }

  /** The nested pixel loop. The output surface starts zeroed. With a
      positive depth and a normalisation that keeps upward vectors upward,
      the result is undefined exactly for a 1×1 image; otherwise the word at
      `w*y + x` is the encoding of pixel (x, y)'s normal, for every pixel. */
  method RenderNormals(values: seq<int>, w: nat, h: nat, depth: real, sqrt2: real, unit: Vec3 -> Vec3)
    returns (r: Rendered)
    requires ValidGrid(values, w, h) && depth > 0.0 && sqrt2 > 0.0
    requires IntoUnitCube(unit) && KeepsUpward(unit)
    ensures r.Undefined? <==> w == 1 && h == 1
    ensures r.Image? ==> |r.words| == w * h
    ensures r.Image? ==> forall x, y :: InGrid(w, h, x, y) ==>
      Summed(Gather(values, w, h, x, y), depth, sqrt2, unit) != Zero &&
      r.words[CellIndex(w, h, x, y)] == PixelWord(values, w, h, x, y, depth, sqrt2, unit)
  {
    var words := seq(w * h, _ => 0);
    var y := 0;
    while y < h
      invariant 0 <= y <= h
      invariant |words| == w * h
      invariant w == 1 && h == 1 ==> y == 0
      invariant forall x', y' :: InGrid(w, h, x', y') && y' < y ==>
        Summed(Gather(values, w, h, x', y'), depth, sqrt2, unit) != Zero &&
        words[CellIndex(w, h, x', y')] == PixelWord(values, w, h, x', y', depth, sqrt2, unit)
    {
      var x := 0;
      while x < w
        invariant 0 <= x <= w
        invariant |words| == w * h
        invariant w == 1 && h == 1 ==> x == 0
        invariant forall x', y' :: InGrid(w, h, x', y') && Before(x', y', x, y) ==>
          Summed(Gather(values, w, h, x', y'), depth, sqrt2, unit) != Zero &&
          words[CellIndex(w, h, x', y')] == PixelWord(values, w, h, x', y', depth, sqrt2, unit)
      {
        var s := Summed(Gather(values, w, h, x, y), depth, sqrt2, unit);
        SummedIsZeroIffSinglePixel(values, w, h, x, y, depth, sqrt2, unit);
        if s == Zero {
          return Undefined;
        }
        var word := PixelWord(values, w, h, x, y, depth, sqrt2, unit);
        var i := CellIndex(w, h, x, y);
        StoreKeepsOthers(values, w, h, x, y, words, word, depth, sqrt2, unit);
        words := words[i := word];
        x := x + 1;
      }
      y := y + 1;
    }
    return Image(words);
  }

  /** Storing pixel (x, y)'s word extends the set of finished cells by
      (x, y) and disturbs no cell finished before. */
  lemma StoreKeepsOthers(values: seq<int>, w: int, h: int, x: int, y: int,
                         words: seq<int>, word: int, depth: real, sqrt2: real, unit: Vec3 -> Vec3)
    requires ValidGrid(values, w, h) && InGrid(w, h, x, y) && sqrt2 > 0.0
    requires IntoUnitCube(unit) && |words| == w * h
    requires Summed(Gather(values, w, h, x, y), depth, sqrt2, unit) != Zero
    requires word == PixelWord(values, w, h, x, y, depth, sqrt2, unit)
    requires forall x', y' :: InGrid(w, h, x', y') && Before(x', y', x, y) ==>
      Summed(Gather(values, w, h, x', y'), depth, sqrt2, unit) != Zero &&
      words[CellIndex(w, h, x', y')] == PixelWord(values, w, h, x', y', depth, sqrt2, unit)
    ensures forall x', y' :: InGrid(w, h, x', y') && Before(x', y', x + 1, y) ==>
      Summed(Gather(values, w, h, x', y'), depth, sqrt2, unit) != Zero &&
      words[CellIndex(w, h, x, y) := word][CellIndex(w, h, x', y')]
        == PixelWord(values, w, h, x', y', depth, sqrt2, unit)
  {
    UpdateKeepsOthers(w, h, x, y, words, word);
  }

  /** Writing the word of cell (x, y) leaves every other cell's word as it
      was. */
  lemma UpdateKeepsOthers(w: int, h: int, x: int, y: int, words: seq<int>, word: int)
    requires InGrid(w, h, x, y) && |words| == w * h
    ensures forall x', y' :: InGrid(w, h, x', y') && (x' != x || y' != y) ==>
      words[CellIndex(w, h, x, y) := word][CellIndex(w, h, x', y')] == words[CellIndex(w, h, x', y')]
  {
    forall x', y' | InGrid(w, h, x', y') && (x' != x || y' != y)
      ensures words[CellIndex(w, h, x, y) := word][CellIndex(w, h, x', y')] == words[CellIndex(w, h, x', y')]
    {
      CellIndexInjective(w, h, x, y, x', y');
    }
  }

  /** A flat height field on an image of more than one pixel renders every
      pixel as the word 0x8080FF00 (red 128, green 128, blue 255): the
      colour of a normal pointing straight out of the surface. */
  lemma {:induction false} FlatImageRendersUp(values: seq<int>, w: int, h: int, x: int, y: int, level: int,
                                              depth: real, sqrt2: real, unit: Vec3 -> Vec3)
    requires ValidGrid(values, w, h) && InGrid(w, h, x, y) && !(w == 1 && h == 1)
    requires forall i :: 0 <= i < w * h ==> values[i] == level
    requires depth > 0.0 && sqrt2 > 0.0
    requires IntoUnitCube(unit) && KeepsUpward(unit) && NormalisesVertical(unit)
    ensures Summed(Gather(values, w, h, x, y), depth, sqrt2, unit) != Zero
    ensures PixelWord(values, w, h, x, y, depth, sqrt2, unit) == 0x8080FF00
  {
    SummedIsZeroIffSinglePixel(values, w, h, x, y, depth, sqrt2, unit);
    FlatFieldNormal(values, w, h, x, y, level, depth, sqrt2, unit);
    UpEncoding();
  }
}
