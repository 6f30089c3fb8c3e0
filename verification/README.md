# BumpToNorm in Dafny

BumpToNorm turns bump maps (height maps) into normal maps. It takes each
image named on the command line and reads one height sample per pixel from
the red channel. For each pixel it estimates the surface normal from the
height differences to its up-to-eight neighbours. It writes the normals as
colours, mapping each component from [-1, 1] to a byte, into
`<name>_b2n.bmp`. All of this lives in `BumpToNorm/Source.cpp`.

This project models the discrete core of that file, one module per concern:

| module | models |
|---|---|
| `Grid` (grid.dfy) | the w×h row-major grid, cell index `w*y + x`, the eight neighbours and the four bounds tests |
| `Stencil` (stencil.dfy) | the neighbour gathering of `getAverageNormal`: which neighbours are read, which buffer cells, and the integer numerators of every gradient vector |
| `StencilProperties` (stencil_properties.dfy) | in-bounds reads, contribution counts, thin grids, the sign convention, the shape of each vector, flat fields |
| `Normals` (normals.dfy) | the summation and final normalisation of `getAverageNormal`, with `sqrt(2)` and `normalize` as parameters |
| `Encoding` (encoding.dfy) | the colour-channel conversion and the packing of a pixel word |
| `Extract` (extract.dfy) | `extractPixels`: red-channel masking and shifting, appended to `valueMap` |
| `Render` (render.dfy) | the nested pixel loop of `main` that fills the output surface |
| `FileName` (filename.dfy) | the output-name derivation with `find_last_of`, `erase` and `+=` |
| `Pipeline` (pipeline.dfy) | the argv loop's use of the global `valueMap` across several files |

Heights are integers. Vector components are reals. `sqrt(2)` appears only as
a positive parameter `sqrt2`. `vector3D::normalize` is a parameter `unit`
of type `Vec3 -> Vec3`. Where a lemma needs a property of normalisation, it
names that property as a predicate and requires it:
- `KeepsUpward`: a vector with positive z keeps positive z.
- `NormalisesVertical`: (0, 0, z) with z > 0 becomes (0, 0, 1).
- `IntoUnitCube`: a non-zero vector lands in [-1, 1]³.

Four points where the code does less, or something else, than its
surroundings suggest; the model follows the code:
- **No edge table.** The dead globals at lines 22-25 hint at a table of one
  normal per grid edge. The code recomputes every neighbour difference per
  pixel. `StencilProperties.EdgeSharedByBothEnds` and
  `StencilProperties.GatheredAt` show that the recompute still gives both
  endpoints of an edge the same numerators.
- **The zero vector only arises for a 1×1 image.** A flat neighbourhood
  does not make the sum zero: every gathered vector has z = depth > 0 (or
  depth·√2). The sum is therefore zero only when nothing is gathered, which
  is exactly the single-pixel image (`Normals.SummedIsZeroIffSinglePixel`).
  A flat field on any larger image gives exactly (0, 0, 1), which encodes as
  (128, 128, 255) (`Render.FlatImageRendersUp`).
- **State is not per file.** `valueMap` (line 20) is a global that is
  appended to for every file and never cleared (see Findings).
- **A name with no '.' stops the program.** The code cuts the name at the
  last '.' anywhere in the path. A name with no '.' makes `erase(npos)`
  throw `std::out_of_range`, which nothing catches. The model returns
  `OutOfRange` for it rather than excluding that input.

## Model

| member | source | states |
|---|---|---|
| Grid.CellIndex | BumpToNorm/Source.cpp:136 | the index `w*y + x` of an in-grid cell lies in [0, w*h) |
| Grid.CellIndexInjective | BumpToNorm/Source.cpp:249 | two in-grid cells have the same index `w*y + x` if and only if they are the same cell |
| Stencil.Gather | BumpToNorm/Source.cpp:133-186 | the orthogonal list is exactly the contributions of the in-grid neighbours among top, left, right, bottom, in push order; the diagonal list is the same for top-left, top-right, bottom-left, bottom-right; each contribution equals the reference definition `Expected` (offset times height drop) |
| Stencil.RowAbove | BumpToNorm/Source.cpp:137-155 | the `y > 0` block adds the top neighbour's contribution exactly when it is in the grid, plus the diagonals above |
| Stencil.AboveDiagonals | BumpToNorm/Source.cpp:143-154 | top-left and top-right contributions are added exactly when those cells exist, with the reference numerators |
| Stencil.SameRow | BumpToNorm/Source.cpp:156-167 | left and right contributions are added exactly when those cells exist, and no diagonal one |
| Stencil.RowBelow | BumpToNorm/Source.cpp:168-186 | the `y < h - 1` block adds the bottom neighbour's contribution exactly when it is in the grid, plus the diagonals below |
| Stencil.BelowDiagonals | BumpToNorm/Source.cpp:174-185 | bottom-left and bottom-right contributions are added exactly when those cells exist, with the reference numerators |
| StencilProperties.ReadsInBounds | BumpToNorm/Source.cpp:136-185 | every buffer index read is `w*(y+dy) + x+dx` for an in-grid neighbour and lies in [0, w*h) |
| StencilProperties.ContributionCounts | BumpToNorm/Source.cpp:137-186 | on a grid at least 2×2: a corner gathers 2 orthogonal + 1 diagonal, an edge pixel 3 + 2, an interior pixel 4 + 4 |
| StencilProperties.ContributionTotals | BumpToNorm/Source.cpp:137-186 | the totals are 3, 5 and 8 |
| StencilProperties.OneWideGrid | BumpToNorm/Source.cpp:137-186 | on a 1-wide grid nothing diagonal is gathered and every orthogonal contribution is from the top or bottom |
| StencilProperties.OneTallGrid | BumpToNorm/Source.cpp:137-186 | on a 1-tall grid nothing diagonal is gathered and every orthogonal contribution is from the left or right |
| StencilProperties.NothingGatheredIffSinglePixel | BumpToNorm/Source.cpp:137-186 | no contribution at all is gathered if and only if the image is 1×1 |
| StencilProperties.SignConvention | BumpToNorm/Source.cpp:140-183 | every x-numerator is left sample minus right sample, every y-numerator top sample minus bottom sample, so a higher neighbour to the right or below gives a negative component |
| StencilProperties.NumeratorShape | BumpToNorm/Source.cpp:140-183 | orthogonal contributions come from orthogonal neighbours and have a zero numerator across their axis; diagonal ones come from diagonal neighbours and point along their diagonal |
| StencilProperties.FlatField | BumpToNorm/Source.cpp:140-183 | when all samples are equal every numerator is 0 |
| StencilProperties.GatherReadsOnlyGrid | BumpToNorm/Source.cpp:136-185 | two buffers that agree on their first w*h cells give identical contributions |
| StencilProperties.EdgeSharedByBothEnds | BumpToNorm/Source.cpp:140-183 | the contribution a pixel takes from a neighbour has the same numerators as the one the neighbour takes back, and that one reads the pixel's own cell |
| StencilProperties.GatheredAt | BumpToNorm/Source.cpp:136-185 | a pixel gathers the reference contribution of every in-grid neighbour, and no other contribution from that neighbour |
| Normals.GradientVector | BumpToNorm/Source.cpp:140-183 | with a positive depth the vector points out of the surface (z > 0); an orthogonal one carries the numerators unchanged with z = depth, a diagonal one carries them divided by √2 with z = depth·√2 |
| Normals.GradientVectors | BumpToNorm/Source.cpp:140-183 | orthogonal vectors are (xNum, yNum, depth); diagonal ones have z = depth·√2 and x, y equal to the numerators divided by √2 |
| Normals.Accumulate | BumpToNorm/Source.cpp:188-199 | with a positive depth and a normalisation that keeps vectors upward, the running z never falls, and strictly rises when at least one vector is added |
| Normals.Summed | BumpToNorm/Source.cpp:188-199 | the vector finally normalised is zero when nothing was gathered and points upward (z > 0) when anything was |
| Normals.AverageNormal | BumpToNorm/Source.cpp:188-202 | the returned normal points out of the surface (z > 0) whenever some neighbour was gathered |
| Normals.SummedIsZeroIffSinglePixel | BumpToNorm/Source.cpp:188-201 | the vector finally normalised is the zero vector if and only if the image is 1×1; otherwise its z is positive |
| Normals.AccumulateFlat | BumpToNorm/Source.cpp:188-199 | summing normalised vectors whose numerators are zero keeps x and y at zero and raises z |
| Normals.FlatFieldNormal | BumpToNorm/Source.cpp:188-202 | in a flat field on an image larger than 1×1 every pixel's normal is exactly (0, 0, 1) |
| Encoding.Channel | BumpToNorm/Source.cpp:245-247 | for v in [-1, 1] the byte lies in [0, 255] and is the nearest integer to (v+1)/2·255, halves rounded up |
| Encoding.ChannelLandmarks | BumpToNorm/Source.cpp:245-247 | -1 gives 0, 0 gives 128 and 1 gives 255 |
| Encoding.ChannelMonotone | BumpToNorm/Source.cpp:245-247 | a larger component never gives a smaller byte |
| Encoding.Pack | BumpToNorm/Source.cpp:249 | the word is below 2^32, has low byte 0, and its bytes at 2^24, 2^16 and 2^8 are red, green and blue |
| Encoding.EncodeNormal | BumpToNorm/Source.cpp:245-249 | the pixel word of a normal decodes to the three channel bytes of its components |
| Encoding.UpEncoding | BumpToNorm/Source.cpp:245-249 | the normal (0, 0, 1) becomes the word 0x8080FF00 |
| Encoding.PackAsWritten | BumpToNorm/Source.cpp:249 | the expression evaluated in signed 32-bit `int` is defined if and only if red < 128, and then equals the intended word |
| Encoding.PackAsWrittenOverflowsIffXNonNegative | BumpToNorm/Source.cpp:245-249 | the `int` expression overflows exactly for the normals with x >= 0 |
| Encoding.PackAsWrittenOverflowsForUpNormal | BumpToNorm/Source.cpp:245-249 | the flat-surface normal (0, 0, 1) already overflows |
| Encoding.WrappedAsWrittenAgrees | BumpToNorm/Source.cpp:249 | if `int` arithmetic wraps, the stored `Uint32` still equals the intended word |
| Extract.Height | BumpToNorm/Source.cpp:115 | the sample `Uint8((pixel & Rmask) / 0x1000000)` lies in [0, 255] |
| Extract.HeightIsTopByte | BumpToNorm/Source.cpp:115 | with the RGBA8888 red mask the sample is the top byte of the pixel word, whatever the other bytes hold |
| Extract.ExtractPixels | BumpToNorm/Source.cpp:108-119 | exactly w*h samples are appended, the earlier contents are unchanged, and sample i is the red channel of pixel i |
| Extract.ExtractedAreTopBytes | BumpToNorm/Source.cpp:113-116 | on an RGBA8888 surface every appended sample is `pixel / 0x1000000`, at most 255 |
| Render.PixelWord | BumpToNorm/Source.cpp:244-249 | the word stored for a pixel is below 2^32 with a zero low byte, and its bytes at 2^24, 2^16 and 2^8 are the channel bytes of the x, y and z components of the pixel's normal |
| Render.RenderNormals | BumpToNorm/Source.cpp:239-251 | the result is `Undefined` (the NaN cast) if and only if the image is 1×1; otherwise it holds w*h words and the word at `w*y + x` is the encoding of pixel (x, y)'s normal, for every pixel |
| Render.FlatImageRendersUp | BumpToNorm/Source.cpp:240-249 | a flat height field on an image larger than 1×1 gives the word 0x8080FF00 (128, 128, 255) at every pixel |
| FileName.LastDot | BumpToNorm/Source.cpp:256 | the result is -1 (npos) or the position of a '.', and no '.' follows it |
| FileName.OutputName | BumpToNorm/Source.cpp:256-258 | the outcome is `out_of_range` if and only if the name has no '.'; otherwise it is the part before the last '.' followed by `_b2n.bmp` |
| FileName.ReplacesLastExtension | BumpToNorm/Source.cpp:256-258 | for any stem and any extension without a dot, `stem.ext` becomes `stem_b2n.bmp` |
| FileName.DotInDirectory | BumpToNorm/Source.cpp:256-258 | the search spans the whole path: `maps.d/rock` becomes `maps_b2n.bmp` |
| FileName.NoDotIsOutOfRange | BumpToNorm/Source.cpp:256-257 | `rock` ends in `out_of_range` |
| Pipeline.GridsAsWritten | BumpToNorm/Source.cpp:212-224 | as written, file i is rendered from `valueMap` holding the heights of files 0..i; each such grid extends the previous one and is long enough for the current file |
| Pipeline.Grids | BumpToNorm/Source.cpp:212-224 | with `valueMap` emptied per file, file i is rendered from exactly its own w*h heights, sample k being the red channel of its pixel k |
| Pipeline.AllHeightsGrows | BumpToNorm/Source.cpp:20 | `valueMap` only grows from file to file, and after a file it holds at least that file's w*h samples |
| Pipeline.FirstFileAgrees | BumpToNorm/Source.cpp:212-224 | the first file is rendered from its own heights either way |
| Pipeline.LaterFileReadsEarlierHeights | BumpToNorm/Source.cpp:136 | as written, once earlier files hold w*h samples, a later w×h file's grid consists of earlier files' heights only |
| Pipeline.LaterFileGathersEarlierHeights | BumpToNorm/Source.cpp:136-185 | in that case every pixel of the later file gathers exactly what the earlier heights alone give, whatever its own pixels are |
| Pipeline.MirroredAfterRamp | BumpToNorm/Source.cpp:212-224 | a 2×1 ramp followed by its mirror image: as written the second file's left pixel gets x-numerator -255, its own heights give +255 |

## Left out

- `vector3D::lenght`, `normalize` and `sqrt` (lines 55-66): double-precision arithmetic. They are the parameters `unit` and `sqrt2`, and each lemma names the property of normalisation it relies on. Rounding of doubles is not modelled; vector components are exact reals.
- Render.RenderNormals: requires normalisation to map every non-zero vector into [-1, 1]³ and to keep upward vectors upward. These are properties of `normalize` that the model cannot derive, because it does not model `sqrt`.
- Render.RenderNormals: a 1×1 image gives NaN components, and converting NaN to `Uint8` is undefined behaviour. The model reports `Undefined` instead of a word.
- Render.RenderNormals: line 249 is modelled by its intended unsigned value `Pack`, not by the signed `int` evaluation `PackAsWritten`, which overflows for every pixel with red >= 128 (second row of Findings). `Encoding.WrappedAsWrittenAgrees` shows the two give the same stored word where `int` arithmetic wraps. `Undefined` covers only the NaN cast, not this overflow.
- Encoding.Channel: requires the component to lie in [-1, 1]. Outside that range the conversion to `Uint8` can overflow, and only a NaN component (the 1×1 case) can fall outside.
- SDL and SDL_image (lines 68-106, 215-221, 226-236, 253, 259): loading, conversion to RGBA8888, surface creation, conversion to RGB888 and BMP saving are library I/O. The model takes the converted pixel words as input. It treats the output as w*h 32-bit words at `w*y + x`, starting from zero. The pixel layout SDL gives the 24-bit output surface is not modelled.
- Pipeline.GridsAsWritten: a file that fails to load is skipped (lines 215-219) without touching `valueMap`. The model takes the list of files that loaded.
- Pipeline: the finding is stated down to gathering. It is not composed with `RenderNormals` into whole output images.
- The console output (lines 217, 260) and `init`/`close` are plumbing.
- The dead global declarations at lines 22-25 name `vector3D` before it is declared. They are never used and are not modelled.
- Image sizes are unbounded naturals. The `int` loop bounds `surf->w*surf->h` (line 113) and `y*bumpSurf->w + x` (line 249) could overflow only for images of more than 2^31 pixels, which the model does not consider.
- The constant `depth = 0.5` (line 210) is a parameter `depth`. Every property holds for any positive depth.

## Findings

| source | as written | input that shows it | evidently intended | confidence | as-written member | corrected member |
|---|---|---|---|---|---|---|
| BumpToNorm/Source.cpp:212-224 | `valueMap` (line 20) is global and is appended to for every file but never cleared; `getAverageNormal` reads it from index 0, so from the second file on the normals come from earlier files' heights | a 2×1 ramp (heights 0, 255) then its mirror (255, 0): the second file's left pixel gets x-numerator -255 instead of +255 (`Pipeline.MirroredAfterRamp`) | each file rendered from its own heights | high; not executed | Pipeline.GridsAsWritten | Pipeline.Grids |
| BumpToNorm/Source.cpp:249 | `red * 0x1000000` promotes the `Uint8` to signed 32-bit `int`, which overflows (undefined behaviour) whenever red >= 128, i.e. for every normal with x >= 0 | the flat-surface normal (0, 0, 1): red = 128, and 128·2^24 = 2^31 exceeds INT_MAX (`Encoding.PackAsWrittenOverflowsForUpNormal`) | the unsigned 32-bit word red·2^24 + green·2^16 + blue·2^8; with wrapping `int` arithmetic the stored bits are the same (`Encoding.WrappedAsWrittenAgrees`) | medium: undefined by the language, usually harmless in practice; not executed | Encoding.PackAsWritten | Encoding.Pack |
