/**
 * The argv loop of `main` as far as the height grid is concerned: every
 * input file is converted to RGBA8888, its heights are appended to the
 * program-wide `valueMap` by `extractPixels`, and its normals are then
 * computed by `getAverageNormal`, which reads `valueMap` from index 0 as
 * a w×h grid of the current file's dimensions.
 *
 * `valueMap` is never cleared, so from the second file on the grid read is
 * not the file's own. `GridsAsWritten` models the loop as written;
 * `Grids` is the loop with `valueMap` emptied before each file, which is
 * what the rest of the program evidently expects.
 */
module Pipeline {
  import opened Grid
  import opened Stencil
  import opened StencilProperties
  import opened Extract

  /** A loaded input after conversion to RGBA8888: w×h pixel words in
      row-major order. */
  datatype Raster = Raster(w: nat, h: nat, pixels: seq<nat>)

  predicate WellFormed(r: Raster) {
    |r.pixels| == r.w * r.h
  }

  predicate AllWellFormed(files: seq<Raster>) {
    forall i :: 0 <= i < |files| ==> WellFormed(files[i])
  }

  /** The heights of one file: what `extractPixels` appends for it. */
  function HeightsOf(r: Raster): (hs: seq<int>)
    requires WellFormed(r)
    ensures |hs| == r.w * r.h
  {
    Heights(r.pixels, r.w * r.h, RgbaRedMask)
  }

  /** Reference definition of `valueMap` after the given files: their
      heights, one file after another. */
  function AllHeights(files: seq<Raster>): seq<int>
    requires AllWellFormed(files)
  {
    if files == [] then []
    else AllHeights(files[..|files| - 1]) + HeightsOf(files[|files| - 1])
  }

  /** The loop as written: `valueMap` starts empty once and only grows.
      File i is rendered from `valueMap` holding the heights of files 0..i;
      each grid extends the one before it, and is long enough to be read as
      the current file's grid. */
  method GridsAsWritten(files: seq<Raster>) returns (grids: seq<seq<int>>)
    requires AllWellFormed(files)
    ensures |grids| == |files|
    ensures forall i :: 0 <= i < |files| ==> grids[i] == AllHeights(files[..i + 1])
    ensures forall i, j :: 0 <= i <= j < |files| ==> grids[i] <= grids[j]
    ensures forall i :: 0 <= i < |files| ==> ValidGrid(grids[i], files[i].w, files[i].h)
  {
    var valueMap: seq<int> := [];
    grids := [];
    var i := 0;
    while i < |files|
      invariant 0 <= i <= |files|
      invariant |grids| == i
      invariant valueMap == AllHeights(files[..i])
      invariant forall k :: 0 <= k < i ==> grids[k] == AllHeights(files[..k + 1])
    {
      var f := files[i];
      valueMap := ExtractPixels(valueMap, f.pixels, f.w, f.h, RgbaRedMask);
      AppendHeights(files, i);
      grids := grids + [valueMap];
      i := i + 1;
    }
    GridsGrow(files, grids);
  }

  lemma GridsGrow(files: seq<Raster>, grids: seq<seq<int>>)
    requires AllWellFormed(files) && |grids| == |files|
    requires forall i :: 0 <= i < |files| ==> grids[i] == AllHeights(files[..i + 1])
    ensures forall i, j :: 0 <= i <= j < |files| ==> grids[i] <= grids[j]
    ensures forall i :: 0 <= i < |files| ==> ValidGrid(grids[i], files[i].w, files[i].h)
  {
    forall i, j | 0 <= i <= j < |files|
      ensures grids[i] <= grids[j]
      ensures ValidGrid(grids[i], files[i].w, files[i].h)
    {
      AllHeightsGrows(files, i + 1, j + 1);
    }
  }

  /** Processing file i appends its heights to those of the files before. */
  lemma AppendHeights(files: seq<Raster>, i: int)
    requires AllWellFormed(files) && 0 <= i < |files|
    ensures AllHeights(files[..i + 1]) == AllHeights(files[..i]) + HeightsOf(files[i])
  {
    assert files[..i + 1][..i] == files[..i];
  }

  /** `valueMap` only grows: the heights after the first i files are a
      prefix of those after the first j, and the last file's heights fill
      at least its own w*h cells. */
  lemma {:induction false} AllHeightsGrows(files: seq<Raster>, i: int, j: int)
    requires AllWellFormed(files) && 0 <= i <= j <= |files|
    ensures AllHeights(files[..i]) <= AllHeights(files[..j])
    ensures i > 0 ==> |AllHeights(files[..i])| >= files[i - 1].w * files[i - 1].h
    decreases j
  {
    if i > 0 {
      AppendHeights(files, i - 1);
    }
    if i < j {
      AllHeightsGrows(files, i, j - 1);
      AppendHeights(files, j - 1);
    }
  }

  /** The loop with `valueMap` emptied before each file: file i is
      rendered from exactly its own w*h heights, each the red channel of
      the pixel at the same position. */
  method Grids(files: seq<Raster>) returns (grids: seq<seq<int>>)
    requires AllWellFormed(files)
    ensures |grids| == |files|
    ensures forall i :: 0 <= i < |files| ==>
      |grids[i]| == files[i].w * files[i].h &&
      forall k :: 0 <= k < |grids[i]| ==> grids[i][k] == Height(files[i].pixels[k], RgbaRedMask)
  {
    grids := [];
    var i := 0;
    while i < |files|
      invariant 0 <= i <= |files|
      invariant |grids| == i
      invariant forall k :: 0 <= k < i ==> grids[k] == HeightsOf(files[k])
    {
      var f := files[i];
      var valueMap := ExtractPixels([], f.pixels, f.w, f.h, RgbaRedMask);
      grids := grids + [valueMap];
      i := i + 1;
    }
  }

  /** The first file is rendered from its own heights either way. */
  lemma FirstFileAgrees(files: seq<Raster>)
    requires AllWellFormed(files) && files != []
    ensures AllHeights(files[..1]) == HeightsOf(files[0])
  {
    assert files[..1][..0] == [];
  }

  /** As written, once the earlier files hold at least w*h heights, the
      grid a later file of size w×h is rendered from is made of earlier
      files' heights only: its own pixels are never read. */
  lemma {:induction false} LaterFileReadsEarlierHeights(files: seq<Raster>, i: int)
    requires AllWellFormed(files) && 0 < i < |files|
    requires |AllHeights(files[..i])| >= files[i].w * files[i].h
    ensures AllHeights(files[..i + 1])[..files[i].w * files[i].h]
         == AllHeights(files[..i])[..files[i].w * files[i].h]
  {
    AppendHeights(files, i);
    var n := files[i].w * files[i].h;
    var earlier := AllHeights(files[..i]);
    assert (earlier + HeightsOf(files[i]))[..n] == earlier[..n];
  }

  /** The same, for the gradients: each pixel of the later file gathers
      exactly the contributions it would gather from the earlier files'
      heights alone. */
  lemma LaterFileGathersEarlierHeights(files: seq<Raster>, i: int, x: int, y: int)
    requires AllWellFormed(files) && 0 < i < |files|
    requires |AllHeights(files[..i])| >= files[i].w * files[i].h
    requires InGrid(files[i].w, files[i].h, x, y)
    ensures ValidGrid(AllHeights(files[..i + 1]), files[i].w, files[i].h)
    ensures Gather(AllHeights(files[..i + 1]), files[i].w, files[i].h, x, y)
         == Gather(AllHeights(files[..i]), files[i].w, files[i].h, x, y)
  {
    assert files[..i + 1][..i] == files[..i];
    LaterFileReadsEarlierHeights(files, i);
    GatherReadsOnlyGrid(AllHeights(files[..i + 1]), AllHeights(files[..i]), files[i].w, files[i].h, x, y);
  }

  /** A 2×1 image whose left pixel is low and right pixel high, and the
      same image mirrored. */
  const Ramp := Raster(2, 1, [0, 0xFF00_0000])
  const Mirrored := Raster(2, 1, [0xFF00_0000, 0])

  /** Converting `Ramp` and then `Mirrored` in one run: as written the
      second file's left pixel gets the slope of the first file
      (x-numerator 0 - 255), where its own heights give 255 - 0. */
  lemma MirroredAfterRamp()
    ensures AllWellFormed([Ramp, Mirrored])
    ensures Gather(AllHeights([Ramp, Mirrored]), 2, 1, 0, 0).normals
         == [Contribution(Right, 1, -255, 0)]
    ensures Gather(HeightsOf(Mirrored), 2, 1, 0, 0).normals
         == [Contribution(Right, 1, 255, 0)]
  {
    RampHeights();
    RunHeights();
    GatherTwoByOne([0, 255, 255, 0]);
    GatherTwoByOne([255, 0]);
  }

  lemma RunHeights()
    ensures AllWellFormed([Ramp, Mirrored])
    ensures AllHeights([Ramp, Mirrored]) == [0, 255, 255, 0]
  {
    RampHeights();
    var files := [Ramp, Mirrored];
    assert files[..1] == [Ramp];
    assert [Ramp][..0] == [];
    assert AllHeights([Ramp]) == [0, 255];
  }

  lemma RampHeights()
    ensures HeightsOf(Ramp) == [0, 255] && HeightsOf(Mirrored) == [255, 0]
  {
    HeightIsTopByte(0);
    HeightIsTopByte(0xFF00_0000);
  }

  /** The left pixel of a 2×1 grid has only a right neighbour. */
  lemma GatherTwoByOne(values: seq<int>)
    requires |values| >= 2
    ensures Gather(values, 2, 1, 0, 0).normals == [Contribution(Right, 1, values[0] - values[1], 0)]
  {
    assert Keep(2, 1, 0, 0, Top) == [] && Keep(2, 1, 0, 0, Left) == [] && Keep(2, 1, 0, 0, Bottom) == [];
    assert OrthogonalPresent(2, 1, 0, 0) == [Right];
  }
}
