/**
 * `extractPixels`: one height sample per pixel of the decoded surface,
 * taken from the red channel, appended to the program-wide `valueMap`.
 *
 * The surface has been converted to RGBA8888, so each pixel is one 32-bit
 * word with red in the top byte and `Rmask` is 0xFF000000. Pixel words are
 * modelled as naturals below 2^32 and `&` as bitwise conjunction on them.
 */
module Extract {
  import Grid

  const WordLimit: nat := 0x1_0000_0000

  /** `surf->format->Rmask` of an RGBA8888 surface. */
  const RgbaRedMask: nat := 0xFF00_0000

  /** A 32-bit unsigned pixel word. */
  predicate IsWord(p: int) {
    0 <= p < WordLimit
  }

  function Pow2(n: nat): (r: nat)
    ensures r >= 1
  {
    if n == 0 then 1 else 2 * Pow2(n - 1)
  }

  /** Bitwise `&` of two naturals, bit by bit from the least significant. */
  function BitAnd(a: nat, b: nat): nat
    decreases a
  {
    if a == 0 || b == 0 then 0
    else 2 * BitAnd(a / 2, b / 2) + (if a % 2 == 1 && b % 2 == 1 then 1 else 0)
  }

  /** `Uint8((pixel & rmask) / 0x1000000)`: the masked word shifted down by
      three bytes, then truncated to a byte. */
  function Height(pixel: nat, rmask: nat): (v: int)
    ensures 0 <= v < 0x100
  {
    (BitAnd(pixel, rmask) / 0x1000000) % 0x100
  }

  /** With the RGBA8888 red mask the sample is the top byte of the pixel
      word, whatever the other three bytes hold. */
  lemma HeightIsTopByte(pixel: nat)
    requires IsWord(pixel)
    ensures Height(pixel, RgbaRedMask) == pixel / 0x1000000
  {
    assert Pow2(8) == 0x100;
    Pow2Add(8, 8);
    Pow2Add(16, 8);
    assert Pow2(24) == 0x1000000;
    MaskAboveShift(pixel, 0xFF, 24);
    LowMask(pixel / 0x1000000, 8);
    var top := pixel / 0x1000000;
    assert top < 0x100;
    Grid.DivModUnique(top, 0x100, 0, top);
    Grid.DivModUnique(top * 0x1000000, 0x1000000, top, 0);
  }

  /** Masking with bits that all lie at position k or above: the same as
      masking the word shifted down by k, then shifting back up. */
  lemma {:induction false} MaskAboveShift(a: nat, m: nat, k: nat)
    ensures BitAnd(a, m * Pow2(k)) == BitAnd(Shift(a, Pow2(k)), m) * Pow2(k)
    decreases k
  {
    if k == 0 {
      Grid.DivModUnique(a, 1, a, 0);
    } else if a == 0 {
      Grid.DivModUnique(0, Pow2(k), 0, 0);
    } else if m == 0 {
      assert m * Pow2(k) == 0;
    } else {
      var half := Pow2(k - 1);
      MaskHalves(a, m, k);
      MaskAboveShift(a / 2, m, k - 1);
      HalveShift(a, k);
      Double(BitAnd(Shift(a, Pow2(k)), m), half);
    }
  }

  /** One step of the bitwise recursion on a mask whose lowest bit is 0. */
  lemma MaskHalves(a: nat, m: nat, k: nat)
    requires k > 0 && a > 0 && m > 0
    ensures BitAnd(a, m * Pow2(k)) == 2 * BitAnd(a / 2, m * Pow2(k - 1))
  {
    var half := Pow2(k - 1);
    Double(m, half);
    Grid.DivModUnique(m * Pow2(k), 2, m * half, 0);
  }

  /** Halving, then shifting by k - 1, is shifting by k. */
  lemma HalveShift(a: nat, k: nat)
    requires k > 0
    ensures Shift(a / 2, Pow2(k - 1)) == Shift(a, Pow2(k))
  {
    DivDiv(a, 2, Pow2(k - 1));
  }

  /** a shifted down by the power of two p. */
  function Shift(a: nat, p: nat): (q: nat)
    requires p > 0
    ensures q == a / p
  {
    Grid.DivModUnique(a, p, a / p, a % p);
    a / p
  }

  lemma Double(m: int, n: int)
    ensures m * (2 * n) == 2 * (m * n)
  {
  }

  lemma Pow2Add(a: nat, b: nat)
    ensures Pow2(a + b) == Pow2(a) * Pow2(b)
    decreases a
  {
    if a > 0 {
      Pow2Add(a - 1, b);
    }
  }

  /** Masking with the low n bits keeps the remainder modulo 2^n. */
  lemma {:induction false} LowMask(a: nat, n: nat)
    ensures BitAnd(a, Pow2(n) - 1) == a % Pow2(n)
    decreases n
  {
    if n == 0 {
      Grid.DivModUnique(a, 1, a, 0);
    } else if a == 0 {
      Grid.DivModUnique(0, Pow2(n), 0, 0);
    } else {
      LowMask(a / 2, n - 1);
      LowMaskFromHalf(a, n);
    }
  }

  /** The induction step: the claim for a / 2 and n - 1 bits gives it for a
      and n bits. */
  lemma LowMaskFromHalf(a: nat, n: nat)
    requires a > 0 && n > 0
    requires BitAnd(a / 2, Pow2(n - 1) - 1) == (a / 2) % Pow2(n - 1)
    ensures BitAnd(a, Pow2(n) - 1) == a % Pow2(n)
  {
    LowMaskStep(a, n);
    ModDouble(a, Pow2(n - 1));
  }

  /** One step of the bitwise recursion on a mask of n low bits. */
  lemma LowMaskStep(a: nat, n: nat)
    requires a > 0 && n > 0
    ensures BitAnd(a, Pow2(n) - 1) == 2 * BitAnd(a / 2, Pow2(n - 1) - 1) + a % 2
  {
    Grid.DivModUnique(Pow2(n) - 1, 2, Pow2(n - 1) - 1, 1);
  }

  /** (a / b) / c == a / (b * c) for positive b and c. */
  lemma DivDiv(a: nat, b: nat, c: nat)
    requires b > 0 && c > 0
    ensures a / b / c == a / (b * c)
  {
    var q := a / b / c;
    var r := a / b % c;
    assert a / b == c * q + r;
    assert a == b * (a / b) + a % b;
    assert a == (b * c) * q + (b * r + a % b) by {
      assert b * (c * q + r) == (b * c) * q + b * r;
    }
    assert b * r + a % b < b * c by {
      Grid.MulMonotone(b, r, c - 1);
      assert b * (c - 1) == b * c - b;
    }
    Grid.DivModUnique(a, b * c, q, b * r + a % b);
  }

  /** a % (2m) == 2·((a / 2) % m) + a % 2. */
  lemma ModDouble(a: nat, m: nat)
    requires m > 0
    ensures a % (2 * m) == 2 * ((a / 2) % m) + a % 2
  {
    var q := (a / 2) / m;
    var r := (a / 2) % m;
    assert a / 2 == m * q + r;
    assert a == (2 * m) * q + (2 * r + a % 2);
    Grid.DivModUnique(a, 2 * m, q, 2 * r + a % 2);
  }

  /** The samples `extractPixels` produces for the first `count` pixel
      words, in order. */
  function Heights(pixels: seq<nat>, count: nat, rmask: nat): (hs: seq<int>)
    requires count <= |pixels|
    ensures |hs| == count
    ensures forall i :: 0 <= i < count ==> hs[i] == Height(pixels[i], rmask)
  {
    seq(count, i requires 0 <= i < count => Height(pixels[i], rmask))
  }

  /** `extractPixels` on a w×h surface whose pixel words are `pixels`: it
      appends exactly w*h samples to `valueMap` and leaves what was already
      there untouched; sample i is the red channel of pixel word i. */
  method ExtractPixels(valueMap: seq<int>, pixels: seq<nat>, w: nat, h: nat, rmask: nat)
    returns (r: seq<int>)
    requires w * h <= |pixels|
    ensures |r| == |valueMap| + w * h
    ensures r[..|valueMap|] == valueMap
    ensures forall i :: 0 <= i < w * h ==> r[|valueMap| + i] == Height(pixels[i], rmask)
    ensures r == valueMap + Heights(pixels, w * h, rmask)
  {
    r := valueMap;
    var i := 0;
    while i < w * h
      invariant 0 <= i <= w * h
      invariant |r| == |valueMap| + i
      invariant r[..|valueMap|] == valueMap
      invariant forall k :: 0 <= k < i ==> r[|valueMap| + k] == Height(pixels[k], rmask)
    {
      var val := Height(pixels[i], rmask);
      r := r + [val];
      i := i + 1;
    }
    assert r == valueMap + Heights(pixels, w * h, rmask);
  }

  /** On an RGBA8888 surface every appended sample is the top byte of its
      pixel word, hence at most 255. */
  lemma ExtractedAreTopBytes(pixels: seq<nat>, count: nat)
    requires count <= |pixels| && forall i :: 0 <= i < |pixels| ==> IsWord(pixels[i])
    ensures forall i :: 0 <= i < count ==>
      Heights(pixels, count, RgbaRedMask)[i] == pixels[i] / 0x1000000 <= 255
  {
    forall i | 0 <= i < count
      ensures Heights(pixels, count, RgbaRedMask)[i] == pixels[i] / 0x1000000 <= 255
    {
      HeightIsTopByte(pixels[i]);
    }
  }
}
