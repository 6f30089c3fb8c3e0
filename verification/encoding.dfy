/**
 * Mapping a normal to an output pixel: each component v in [-1, 1] becomes
 * the byte `Uint8((v + 1.0)/2*255.0 + 0.5)`, and the three bytes are packed
 * into the 32-bit word `red*0x1000000 + green*0x10000 + blue*0x100` that is
 * stored in the RGBA output surface (alpha byte left 0).
 */
module Encoding {
  import Grid

  /** A component of a unit normal. */
  predicate InUnitRange(v: real) {
    -1.0 <= v <= 1.0
  }

  /** One colour channel. The conversion to `Uint8` truncates toward zero,
      which for the non-negative argument here is `Floor`; the argument lies
      in [0.5, 255.5], so no wrap-around occurs. The result is the nearest
      integer to (v + 1)/2·255, halves rounded up. */
  function Channel(v: real): (c: int)
    requires InUnitRange(v)
    ensures 0 <= c <= 255
    ensures c as real - 0.5 <= (v + 1.0) / 2.0 * 255.0 < c as real + 0.5
  {
    ((v + 1.0) / 2.0 * 255.0 + 0.5).Floor
  }

  /** The ends and the middle of the range: -1 maps to 0, 0 to 128 and 1 to
      255. */
  lemma ChannelLandmarks()
    ensures Channel(-1.0) == 0
    ensures Channel(0.0) == 128
    ensures Channel(1.0) == 255
  {
    assert (0.0 + 1.0) / 2.0 * 255.0 == 127.5;
  }

  /** A larger component never gives a smaller channel value. */
  lemma ChannelMonotone(u: real, v: real)
    requires InUnitRange(u) && InUnitRange(v) && u <= v
    ensures Channel(u) <= Channel(v)
  {
  }

  /** The byte of a 32-bit word at the given power-of-256 position. */
  function ByteAt(word: int, position: int): int
    requires position == 0x100 || position == 0x10000 || position == 0x1000000
  {
    word / position % 0x100
  }

  /** The pixel word of line 249, computed in unbounded arithmetic: red in
      the top byte, then green, then blue, and a zero low byte. It fits in
      an unsigned 32-bit word and unpacks to the three channels. */
  function Pack(red: int, green: int, blue: int): (word: int)
    requires 0 <= red < 0x100 && 0 <= green < 0x100 && 0 <= blue < 0x100
    ensures 0 <= word < 0x1_0000_0000
    ensures word % 0x100 == 0
    ensures ByteAt(word, 0x1000000) == red
    ensures ByteAt(word, 0x10000) == green
    ensures ByteAt(word, 0x100) == blue
  {
    var word := red * 0x1000000 + green * 0x10000 + blue * 0x100;
    PackBytes(red, green, blue);
    word
  }

  lemma PackBytes(red: int, green: int, blue: int)
    requires 0 <= red < 0x100 && 0 <= green < 0x100 && 0 <= blue < 0x100
    ensures var word := red * 0x1000000 + green * 0x10000 + blue * 0x100;
      && word % 0x100 == 0
      && word / 0x1000000 % 0x100 == red
      && word / 0x10000 % 0x100 == green
      && word / 0x100 % 0x100 == blue
  {
    var word := red * 0x1000000 + green * 0x10000 + blue * 0x100;
    var low := green * 0x10000 + blue * 0x100;
    assert 0 <= low < 0x1000000;
    Grid.DivModUnique(word, 0x1000000, red, low);
    Grid.DivModUnique(word, 0x10000, red * 0x100 + green, blue * 0x100);
    Grid.DivModUnique(red * 0x100 + green, 0x100, red, green);
    Grid.DivModUnique(word, 0x100, red * 0x10000 + green * 0x100 + blue, 0);
    Grid.DivModUnique(red * 0x10000 + green * 0x100 + blue, 0x100, red * 0x100 + green, blue);
    Grid.DivModUnique(red, 0x100, 0, red);
  }

  /** The three channels of a normal packed into one pixel word. */
  function EncodeNormal(x: real, y: real, z: real): (word: int)
    requires InUnitRange(x) && InUnitRange(y) && InUnitRange(z)
    ensures 0 <= word < 0x1_0000_0000 && word % 0x100 == 0
    ensures ByteAt(word, 0x1000000) == Channel(x)
    ensures ByteAt(word, 0x10000) == Channel(y)
    ensures ByteAt(word, 0x100) == Channel(z)
  {
    Pack(Channel(x), Channel(y), Channel(z))
  }

  /** The normal (0, 0, 1), pointing straight out of the surface, encodes
      as red 128, green 128, blue 255: the word 0x8080FF00. */
  lemma UpEncoding()
    ensures EncodeNormal(0.0, 0.0, 1.0) == 0x8080FF00
  {
    ChannelLandmarks();
  }

  // Line 249 as written: `red`, `green` and `blue` are `Uint8`, promoted to
  // (32-bit, signed) `int` before the multiplications, so every product and
  // partial sum is an `int` computation, where overflow is undefined.

  const IntMin: int := -0x8000_0000
  const IntMax: int := 0x7FFF_FFFF

  predicate FitsInt(v: int) {
    IntMin <= v <= IntMax
  }

  /** The word as the C++ expression computes it in `int`: defined only when
      no intermediate result leaves the `int` range. */
  datatype IntResult = Defined(value: int) | Overflow

  function PackAsWritten(red: int, green: int, blue: int): (r: IntResult)
    requires 0 <= red < 0x100 && 0 <= green < 0x100 && 0 <= blue < 0x100
    ensures r.Defined? <==> red < 0x80
    ensures r.Defined? ==> r.value == Pack(red, green, blue)
  {
    var high := red * 0x1000000;
    var mid := high + green * 0x10000;
    var all := mid + blue * 0x100;
    if FitsInt(high) && FitsInt(mid) && FitsInt(all) then Defined(all) else Overflow
  }

  /** The expression as written overflows `int` exactly for the pixels
      whose normal has a non-negative x component: about half of every
      image. */
  lemma PackAsWrittenOverflowsIffXNonNegative(x: real, y: real, z: real)
    requires InUnitRange(x) && InUnitRange(y) && InUnitRange(z)
    ensures PackAsWritten(Channel(x), Channel(y), Channel(z)) == Overflow <==> x >= 0.0
  {
  }

  /** A concrete case: the flat-surface normal (0, 0, 1), whose red channel
      is 128. */
  lemma PackAsWrittenOverflowsForUpNormal()
    ensures PackAsWritten(Channel(0.0), Channel(0.0), Channel(1.0)) == Overflow
  {
    ChannelLandmarks();
  }

  /** Two's-complement wrap-around of an integer into the `int` range: what
      a compiler that does not exploit the undefined behaviour produces. */
  function WrapInt(v: int): (r: int)
    ensures FitsInt(r)
  {
    (v + 0x8000_0000) % 0x1_0000_0000 - 0x8000_0000
  }

  /** Where `int` arithmetic wraps, the as-written word, once stored as a
      `Uint32` (reduced modulo 2^32), is the intended word `Pack`. */
  lemma {:induction false} WrappedAsWrittenAgrees(red: int, green: int, blue: int)
    requires 0 <= red < 0x100 && 0 <= green < 0x100 && 0 <= blue < 0x100
    ensures var wrapped := WrapInt(WrapInt(WrapInt(red * 0x1000000) + green * 0x10000) + blue * 0x100);
      wrapped % 0x1_0000_0000 == Pack(red, green, blue)
  {
    var sum := red * 0x1000000 + green * 0x10000 + blue * 0x100;
    var k := WrappedSum(red * 0x1000000, green * 0x10000, blue * 0x100);
    Grid.DivModUnique(WrapInt(WrapInt(WrapInt(red * 0x1000000) + green * 0x10000) + blue * 0x100),
             0x1_0000_0000, k, sum);
  }

  /** The three wrapped steps together move the plain sum by a multiple of
      2^32. */
  lemma WrappedSum(a: int, b: int, c: int) returns (k: int)
    ensures WrapInt(WrapInt(WrapInt(a) + b) + c) == a + b + c + k * 0x1_0000_0000
  {
    var k1 := WrapOffset(a);
    var k2 := WrapOffset(WrapInt(a) + b);
    var k3 := WrapOffset(WrapInt(WrapInt(a) + b) + c);
    k := k1 + k2 + k3;
  }

  /** Wrapping changes a value by a multiple of 2^32. */
  lemma WrapOffset(v: int) returns (k: int)
    ensures WrapInt(v) == v + k * 0x1_0000_0000
  {
    k := -((v + 0x8000_0000) / 0x1_0000_0000);
  }
}
