/**
 * The simulation loop of gol.c's `main`: two surfaces of the image's size,
 * `src` (the generation on screen) and `dst` (the scratch buffer), whose
 * roles `Swap` exchanges after every step, and one frame of the loop, which
 * handles the pending input and advances the simulation only while it runs.
 */
module Game {
  import opened Surfaces
  import opened Life
  import opened Viewport
  import Engine

  /**
   * The two surface pointers of `main`. The surfaces need not share a pixel
   * format: `src` starts in the loaded image's format and `dst` gets fixed
   * RGBA masks, so each carries its own `Colors`, the leading bytes that
   * painting its pixels alive or dead leaves in it.
   */
  class Buffers {
    var src: array2<Byte>
    var dst: array2<Byte>
    var srcColors: Colors
    var dstColors: Colors

    /** Two distinct surfaces of the same size, as `main` creates them. */
    ghost predicate Valid()
      reads this
    {
      src != dst && src.Length0 == dst.Length0 && src.Length1 == dst.Length1
    }

    /** `main`'s pair: the binarized image and a fresh surface of its size, each with its format's colours. */
    constructor (image: array2<Byte>, imageColors: Colors, scratch: array2<Byte>, scratchColors: Colors)
      requires image != scratch && image.Length0 == scratch.Length0 && image.Length1 == scratch.Length1
      ensures Valid() && src == image && dst == scratch
      ensures srcColors == imageColors && dstColors == scratchColors
    {
      src := image;
      dst := scratch;
      srcColors := imageColors;
      dstColors := scratchColors;
    }

    /** Swap: exchange the two buffers' roles, each surface keeping its own format; no pixel is copied. */
    method Swap()
      requires Valid()
      modifies this
      ensures Valid()
      ensures src == old(dst) && dst == old(src)
      ensures srcColors == old(dstColors) && dstColors == old(srcColors)
    {
      src, dst := dst, src;
      srcColors, dstColors := dstColors, srcColors;
    }
  }

  /**
   * One iteration of `main`'s loop, without drawing and without the frame
   * delay: handle the pending events, then, only if the simulation is running,
   * compute the next generation into `dst`, painted in `dst`'s own colours,
   * and swap. The result of `Step` is not looked at, so when the copy fails
   * (`blitFails`) the buffers are still swapped and the screen shows the
   * untouched scratch surface.
   */
  method Frame(ctx: Context, bufs: Buffers, events: seq<Event>, rules: Rules, blitFails: bool)
    requires bufs.Valid()
    modifies ctx, bufs, bufs.dst
    ensures ctx.State() == HandleAll(old(ctx.State()), events, ctx.Config())
    ensures bufs.Valid()
    ensures unchanged(old(bufs.src))
    ensures !ctx.isRunning ==>
      bufs.src == old(bufs.src) && bufs.dst == old(bufs.dst) && unchanged(old(bufs.dst)) &&
      bufs.srcColors == old(bufs.srcColors) && bufs.dstColors == old(bufs.dstColors)
    ensures ctx.isRunning ==>
      bufs.src == old(bufs.dst) && bufs.dst == old(bufs.src) &&
      bufs.srcColors == old(bufs.dstColors) && bufs.dstColors == old(bufs.srcColors)
    ensures ctx.isRunning && !blitFails ==>
      Cells(bufs.src) == NextGeneration(old(Cells(bufs.src)), bufs.src.Length1, bufs.src.Length0, rules, bufs.srcColors)
    ensures ctx.isRunning && blitFails ==> unchanged(bufs.src)
  {
    ctx.HandleInputs(events);
    if ctx.isRunning {
      var _ := Engine.Step(bufs.src, bufs.dst, bufs.dstColors, rules, blitFails);
      bufs.Swap();
    }
  }
}
