/**
 * Pixel surfaces, reduced to what the Game of Life engine reads of them.
 *
 * The engine only ever inspects the first byte in memory of a pixel (its
 * "leading byte"), so a surface is modelled as a rectangle of leading bytes.
 * A surface of width `w` and height `h` is an `array2<Byte>` indexed
 * `[y, x]` (rows first, as the pixel buffer is laid out); its value is a
 * `Grid`, a sequence of `h` rows of `w` bytes each.
 */
module Surfaces {

  /** The leading byte of a pixel. */
  type Byte = bv8

  /** The contents of a surface, row by row: `g[y][x]` is pixel (x, y). */
  type Grid = seq<seq<Byte>>

  /** `g` is a rectangle of `h` rows of `w` bytes. */
  predicate Shaped(g: Grid, w: int, h: int)
  {
    0 <= w && |g| == h && forall y :: 0 <= y < h ==> |g[y]| == w
  }

  /** The value currently held by a surface buffer. */
  function Cells(a: array2<Byte>): (g: Grid)
    reads a
    ensures Shaped(g, a.Length1, a.Length0)
    ensures forall y, x :: 0 <= y < a.Length0 && 0 <= x < a.Length1 ==> g[y][x] == a[y, x]
  {
    seq(a.Length0, y requires 0 <= y < a.Length0 reads a =>
      seq(a.Length1, x requires 0 <= x < a.Length1 reads a => a[y, x]))
  }

  /** Two rectangles of the same shape are equal when they agree pixel by pixel. */
  lemma GridsEqual(g1: Grid, g2: Grid, w: int, h: int)
    requires Shaped(g1, w, h) && Shaped(g2, w, h)
    requires forall y, x :: 0 <= y < h && 0 <= x < w ==> g1[y][x] == g2[y][x]
    ensures g1 == g2
  {
    forall y | 0 <= y < h
      ensures g1[y] == g2[y]
    {
      assert forall x :: 0 <= x < w ==> g1[y][x] == g2[y][x];
    }
  }
}
