/**
 * The imperative passes of gol.c over surface buffers: the whole-surface copy
 * that starts a generation, one generation (`Step`) and the initial
 * binarization (`Binarize`), each a pair of nested loops over rows and
 * columns that writes pixels in place.
 */
module Engine {
  import opened Surfaces
  import opened Life

  /**
   * The copy SDL_BlitSurface makes of `src` onto `dst` when both have the
   * same size: every pixel of `dst` takes the value of the same pixel of `src`.
   */
  method Blit(src: array2<Byte>, dst: array2<Byte>)
    requires src != dst && src.Length0 == dst.Length0 && src.Length1 == dst.Length1
    modifies dst
    ensures Cells(dst) == Cells(src)
  {
    var y := 0;
    while y < src.Length0
      invariant 0 <= y <= src.Length0
      invariant forall yy, xx :: 0 <= yy < y && 0 <= xx < src.Length1 ==> dst[yy, xx] == src[yy, xx]
    {
      var x := 0;
      while x < src.Length1
        invariant 0 <= x <= src.Length1
        invariant forall yy, xx :: 0 <= yy < y && 0 <= xx < src.Length1 ==> dst[yy, xx] == src[yy, xx]
        invariant forall xx :: 0 <= xx < x ==> dst[y, xx] == src[y, xx]
      {
        dst[y, x] := src[y, x];
        x := x + 1;
      }
      y := y + 1;
    }
    GridsEqual(Cells(dst), Cells(src), src.Length1, src.Length0);
  }

  /**
   * One generation from `src` into `dst`. Fails, writing nothing, when the two
   * surfaces differ in width or height, or when the copy of `src` onto `dst`
   * fails (`blitFails` stands for SDL_BlitSurface's error return). Otherwise
   * `dst` becomes a copy of `src` in which every live cell outside the
   * survival interval is painted dead and every dead cell inside the birth
   * interval is painted alive; every count and every liveness test reads
   * `src`, which is left as it was. `colors` are the leading bytes the two
   * colours leave in `dst`'s own pixel format.
   */
  method Step(src: array2<Byte>, dst: array2<Byte>, colors: Colors, rules: Rules, blitFails: bool) returns (ok: bool)
    requires src != dst
    modifies dst
    ensures unchanged(src)
    ensures ok <==> src.Length1 == dst.Length1 && src.Length0 == dst.Length0 && !blitFails
    ensures !ok ==> unchanged(dst)
    ensures ok ==> Cells(dst) == NextGeneration(Cells(src), src.Length1, src.Length0, rules, colors)
    ensures ok ==> forall y, x :: 0 <= y < src.Length0 && 0 <= x < src.Length1 ==>
      var n := NeighborCount(Cells(src), src.Length1, src.Length0, x, y);
      dst[y, x] == if Live(src[y, x]) && (n < rules.surviveMin || n > rules.surviveMax) then colors.dead
                   else if !Live(src[y, x]) && rules.reproductionMin <= n <= rules.reproductionMax then colors.alive
                   else src[y, x]
  {
    if src.Length1 != dst.Length1 || src.Length0 != dst.Length0 {
      return false;
    }
    if blitFails {
      return false;
    }
    Blit(src, dst);
    Generate(src, dst, colors, rules);
    return true;
  }

  /**
   * The rule loop of Step over a `dst` that already holds a copy of `src`:
   * row by row, every live cell outside the survival interval is painted dead
   * and every dead cell inside the birth interval alive.
   */
  method Generate(src: array2<Byte>, dst: array2<Byte>, colors: Colors, rules: Rules)
    requires src != dst && src.Length0 == dst.Length0 && src.Length1 == dst.Length1
    requires Cells(dst) == Cells(src)
    modifies dst
    ensures Cells(dst) == NextGeneration(Cells(src), src.Length1, src.Length0, rules, colors)
  {
    ghost var g := Cells(src);
    var w, h := src.Length1, src.Length0;
    var y := 0;
    while y < h
      invariant 0 <= y <= h
      invariant Cells(src) == g
      invariant forall yy, xx :: 0 <= yy < y && 0 <= xx < w ==> dst[yy, xx] == NextPixel(g, w, h, rules, colors, xx, yy)
      invariant forall yy, xx :: y <= yy < h && 0 <= xx < w ==> dst[yy, xx] == src[yy, xx]
    {
      UpdateRow(src, dst, colors, rules, y);
      y := y + 1;
    }
    GridsEqual(Cells(dst), NextGeneration(g, w, h, rules, colors), w, h);
  }

  /**
   * The inner loop of Step for row `y`, whose pixels still hold their copies
   * of `src`: each cell's count and liveness are read from `src`, and the
   * pixel in `dst` is repainted when the rule says so.
   */
  method UpdateRow(src: array2<Byte>, dst: array2<Byte>, colors: Colors, rules: Rules, y: int)
    requires src != dst && src.Length0 == dst.Length0 && src.Length1 == dst.Length1
    requires 0 <= y < src.Length0
    requires forall xx :: 0 <= xx < src.Length1 ==> dst[y, xx] == src[y, xx]
    modifies dst
    ensures forall yy, xx :: 0 <= yy < src.Length0 && 0 <= xx < src.Length1 && yy != y ==> dst[yy, xx] == old(dst[yy, xx])
    ensures forall xx :: 0 <= xx < src.Length1 ==> dst[y, xx] == NextPixel(Cells(src), src.Length1, src.Length0, rules, colors, xx, y)
  {
    var w, h := src.Length1, src.Length0;
    var cells := Cells(src);
    var x := 0;
    while x < w
      invariant 0 <= x <= w
      invariant forall yy, xx :: 0 <= yy < h && 0 <= xx < w && yy != y ==> dst[yy, xx] == old(dst[yy, xx])
      invariant forall xx :: 0 <= xx < x ==> dst[y, xx] == NextPixel(cells, w, h, rules, colors, xx, y)
      invariant forall xx :: x <= xx < w ==> dst[y, xx] == src[y, xx]
    {
      var aliveNeighbors := NeighborCount(cells, w, h, x, y);
      var isAlive := IsAlive(cells, w, h, x, y);
      if isAlive == 1 && (aliveNeighbors < rules.surviveMin || aliveNeighbors > rules.surviveMax) {
        dst[y, x] := colors.dead;
      } else if isAlive == 0 && (aliveNeighbors >= rules.reproductionMin && aliveNeighbors <= rules.reproductionMax) {
        dst[y, x] := colors.alive;
      }
      x := x + 1;
    }
  }

  /**
   * Binarize: repaint every pixel, in place, with the alive colour when its
   * own leading byte reads alive and with the dead colour otherwise.
   */
  method Binarize(image: array2<Byte>, colors: Colors)
    modifies image
    ensures forall y, x :: 0 <= y < image.Length0 && 0 <= x < image.Length1 ==>
      image[y, x] == if Live(old(image[y, x])) then colors.alive else colors.dead
    ensures Binary(Cells(image), image.Length1, image.Length0, colors)
    ensures Faithful(colors) ==> forall y, x :: 0 <= y < image.Length0 && 0 <= x < image.Length1 ==>
      Live(image[y, x]) == Live(old(image[y, x]))
  {
    var w, h := image.Length1, image.Length0;
    var y := 0;
    while y < h
      invariant 0 <= y <= h
      invariant forall yy, xx :: 0 <= yy < h && 0 <= xx < w ==>
        image[yy, xx] == if yy < y then (if Live(old(image[yy, xx])) then colors.alive else colors.dead) else old(image[yy, xx])
    {
      var x := 0;
      while x < w
        invariant 0 <= x <= w
        invariant forall yy, xx :: 0 <= yy < h && 0 <= xx < w ==>
          image[yy, xx] == if yy < y || (yy == y && xx < x) then (if Live(old(image[yy, xx])) then colors.alive else colors.dead)
                           else old(image[yy, xx])
      {
        if Live(image[y, x]) {
          image[y, x] := colors.alive;
        } else {
          image[y, x] := colors.dead;
        }
        x := x + 1;
      }
      y := y + 1;
    }
  }
}
