/**
 * Three classic Game of Life patterns under the rules `main` configures
 * (survive with 2 or 3 live neighbours, birth with exactly 3), on clamped
 * surfaces of any size that the pattern fits in.
 */
module Patterns {
  import opened Surfaces
  import opened Life

  /** The rules set up by `main`: survive on 2–3 neighbours, birth on exactly 3. */
  const Conway := Rules(2, 3, 3, 3)

  /** The shapes of the three patterns, placed on the plane. */
  datatype Shape =
    | Block(left: int, top: int)   // a 2×2 square with top-left cell (left, top)
    | Row(cx: int, cy: int)        // three cells in a row centred on (cx, cy)
    | Column(cx: int, cy: int)     // three cells in a column centred on (cx, cy)

  /** Cell (x, y) belongs to the shape. */
  predicate Covers(s: Shape, x: int, y: int)
  {
    match s
    case Block(left, top) => left <= x <= left + 1 && top <= y <= top + 1
    case Row(cx, cy) => y == cy && cx - 1 <= x <= cx + 1
    case Column(cx, cy) => x == cx && cy - 1 <= y <= cy + 1
  }

  /** The binarized w×h surface whose live cells are exactly the shape's. */
  function Pattern(w: nat, h: nat, colors: Colors, s: Shape): (g: Grid)
    ensures Shaped(g, w, h)
    ensures forall y, x :: 0 <= y < h && 0 <= x < w ==>
      g[y][x] == if Covers(s, x, y) then colors.alive else colors.dead
  {
    seq(h, y => seq(w, x => if Covers(s, x, y) then colors.alive else colors.dead))
  }

  /** The live neighbours of (x, y) that the shape has within the surface. */
  function Around(s: Shape, w: int, h: int, x: int, y: int): (n: nat)
  {
    (if y - 1 >= 0 && x - 1 >= 0 && Covers(s, x - 1, y - 1) then 1 else 0)
    + (if y - 1 >= 0 && Covers(s, x, y - 1) then 1 else 0)
    + (if y - 1 >= 0 && x + 1 < w && Covers(s, x + 1, y - 1) then 1 else 0)
    + (if x - 1 >= 0 && Covers(s, x - 1, y) then 1 else 0)
    + (if x + 1 < w && Covers(s, x + 1, y) then 1 else 0)
    + (if y + 1 < h && x - 1 >= 0 && Covers(s, x - 1, y + 1) then 1 else 0)
    + (if y + 1 < h && Covers(s, x, y + 1) then 1 else 0)
    + (if y + 1 < h && x + 1 < w && Covers(s, x + 1, y + 1) then 1 else 0)
  }

  /** With faithful colours a pattern's cell reads back as alive exactly when the shape covers it. */
  lemma PatternBit(w: nat, h: nat, colors: Colors, s: Shape, x: int, y: int)
    requires Faithful(colors) && 0 <= x < w && 0 <= y < h
    ensures IsAlive(Pattern(w, h, colors, s), w, h, x, y) == if Covers(s, x, y) then 1 else 0
  {
  }

  /** The count on a pattern is the number of covered neighbours. */
  lemma PatternCount(w: nat, h: nat, colors: Colors, s: Shape, x: int, y: int)
    requires Faithful(colors) && 0 <= x < w && 0 <= y < h
    ensures NeighborCount(Pattern(w, h, colors, s), w, h, x, y) == Around(s, w, h, x, y)
    ensures IsAlive(Pattern(w, h, colors, s), w, h, x, y) == if Covers(s, x, y) then 1 else 0
  {
    var g := Pattern(w, h, colors, s);
    forall x', y' | 0 <= x' < w && 0 <= y' < h
      ensures IsAlive(g, w, h, x', y') == if Covers(s, x', y') then 1 else 0
    {
      PatternBit(w, h, colors, s, x', y');
    }
  }

  /**
   * One generation of a pattern, cell by cell: the next pixel is the alive
   * colour exactly where the Conway rule applied to the shape's own
   * neighbour counts makes the cell live.
   */
  lemma PatternCellNext(w: nat, h: nat, colors: Colors, s: Shape, t: Shape, x: int, y: int)
    requires Faithful(colors) && 0 <= x < w && 0 <= y < h
    requires var n := Around(s, w, h, x, y);
      Covers(t, x, y) <==> (if Covers(s, x, y) then 2 <= n <= 3 else n == 3)
    ensures NextPixel(Pattern(w, h, colors, s), w, h, Conway, colors, x, y) == Pattern(w, h, colors, t)[y][x]
  {
    PatternCount(w, h, colors, s, x, y);
  }

  /** Around a block, each of its cells sees the other three and no outside cell sees three. */
  lemma BlockCounts(w: int, h: int, left: int, top: int, x: int, y: int)
    requires 0 <= left && left + 1 < w && 0 <= top && top + 1 < h && 0 <= x < w && 0 <= y < h
    ensures var n := Around(Block(left, top), w, h, x, y);
      if Covers(Block(left, top), x, y) then n == 3 else n != 3
  {
    var s := Block(left, top);
    if x < left - 1 || x > left + 2 || y < top - 1 || y > top + 2 {
      assert Around(s, w, h, x, y) == 0;
    } else if Covers(s, x, y) {
      assert Around(s, w, h, x, y) == 3;
    } else {
      assert Around(s, w, h, x, y) <= 2;
    }
  }

  /**
   * Around a row: its centre sees two cells, its ends one each, the cells just
   * above and below the centre three, and every other cell at most two.
   */
  lemma RowCounts(w: int, h: int, cx: int, cy: int, x: int, y: int)
    requires 1 <= cx < w - 1 && 1 <= cy < h - 1 && 0 <= x < w && 0 <= y < h
    ensures var n := Around(Row(cx, cy), w, h, x, y);
      Covers(Column(cx, cy), x, y) <==> (if Covers(Row(cx, cy), x, y) then 2 <= n <= 3 else n == 3)
  {
    var s := Row(cx, cy);
    if x < cx - 2 || x > cx + 2 || y < cy - 1 || y > cy + 1 {
      assert Around(s, w, h, x, y) == 0;
    } else if y == cy {
      assert Around(s, w, h, x, y) == if x == cx then 2 else 1;
    } else if x == cx {
      assert Around(s, w, h, x, y) == 3;
    } else {
      assert Around(s, w, h, x, y) <= 2;
    }
  }

  /**
   * Around a column: its centre sees two cells, its ends one each, the cells
   * just left and right of the centre three, and every other cell at most two.
   */
  lemma ColumnCounts(w: int, h: int, cx: int, cy: int, x: int, y: int)
    requires 1 <= cx < w - 1 && 1 <= cy < h - 1 && 0 <= x < w && 0 <= y < h
    ensures var n := Around(Column(cx, cy), w, h, x, y);
      Covers(Row(cx, cy), x, y) <==> (if Covers(Column(cx, cy), x, y) then 2 <= n <= 3 else n == 3)
  {
    var s := Column(cx, cy);
    if x < cx - 1 || x > cx + 1 || y < cy - 2 || y > cy + 2 {
      assert Around(s, w, h, x, y) == 0;
    } else if x == cx {
      assert Around(s, w, h, x, y) == if y == cy then 2 else 1;
    } else if y == cy {
      assert Around(s, w, h, x, y) == 3;
    } else {
      assert Around(s, w, h, x, y) <= 2;
    }
  }

  /** A still life: a block anywhere inside the surface is left as it is by one generation. */
  lemma BlockIsStill(w: nat, h: nat, colors: Colors, left: int, top: int)
    requires Faithful(colors) && 0 <= left && left + 1 < w && 0 <= top && top + 1 < h
    ensures var g := Pattern(w, h, colors, Block(left, top));
      NextGeneration(g, w, h, Conway, colors) == g
  {
    var s := Block(left, top);
    var g := Pattern(w, h, colors, s);
    var r := NextGeneration(g, w, h, Conway, colors);
    forall y, x | 0 <= y < h && 0 <= x < w
      ensures r[y][x] == g[y][x]
    {
      BlockCounts(w, h, left, top, x, y);
      PatternCellNext(w, h, colors, s, s, x, y);
    }
    GridsEqual(r, g, w, h);
  }

  /** A live cell none of whose neighbours is alive dies, whatever the rest of the surface holds. */
  lemma IsolatedCellDies(g: Grid, w: int, h: int, colors: Colors, x: int, y: int)
    requires Shaped(g, w, h) && 0 <= x < w && 0 <= y < h && Live(g[y][x])
    requires forall x', y' :: Neighbor(w, h, x, y, x', y') ==> !Live(g[y'][x'])
    ensures NextGeneration(g, w, h, Conway, colors)[y][x] == colors.dead
  {
    EmptyNeighborhood(g, w, h, x, y);
  }

  /** A blinker turns from a row into a column in one generation. */
  lemma RowBecomesColumn(w: nat, h: nat, colors: Colors, cx: int, cy: int)
    requires Faithful(colors) && 1 <= cx < w - 1 && 1 <= cy < h - 1
    ensures NextGeneration(Pattern(w, h, colors, Row(cx, cy)), w, h, Conway, colors)
         == Pattern(w, h, colors, Column(cx, cy))
  {
    var r := NextGeneration(Pattern(w, h, colors, Row(cx, cy)), w, h, Conway, colors);
    var c := Pattern(w, h, colors, Column(cx, cy));
    forall y, x | 0 <= y < h && 0 <= x < w
      ensures r[y][x] == c[y][x]
    {
      RowCounts(w, h, cx, cy, x, y);
      PatternCellNext(w, h, colors, Row(cx, cy), Column(cx, cy), x, y);
    }
    GridsEqual(r, c, w, h);
  }

  /** A blinker turns from a column back into a row in one generation. */
  lemma ColumnBecomesRow(w: nat, h: nat, colors: Colors, cx: int, cy: int)
    requires Faithful(colors) && 1 <= cx < w - 1 && 1 <= cy < h - 1
    ensures NextGeneration(Pattern(w, h, colors, Column(cx, cy)), w, h, Conway, colors)
         == Pattern(w, h, colors, Row(cx, cy))
  {
    var r := NextGeneration(Pattern(w, h, colors, Column(cx, cy)), w, h, Conway, colors);
    var c := Pattern(w, h, colors, Row(cx, cy));
    forall y, x | 0 <= y < h && 0 <= x < w
      ensures r[y][x] == c[y][x]
    {
      ColumnCounts(w, h, cx, cy, x, y);
      PatternCellNext(w, h, colors, Column(cx, cy), Row(cx, cy), x, y);
    }
    GridsEqual(r, c, w, h);
  }

  /** The blinker oscillates with period 2: two generations restore it, one does not. */
  lemma BlinkerHasPeriodTwo(w: nat, h: nat, colors: Colors, cx: int, cy: int)
    requires Faithful(colors) && 1 <= cx < w - 1 && 1 <= cy < h - 1
    ensures var g := Pattern(w, h, colors, Row(cx, cy));
      var once := NextGeneration(g, w, h, Conway, colors);
      once != g && NextGeneration(once, w, h, Conway, colors) == g
  {
    var g := Pattern(w, h, colors, Row(cx, cy));
    RowBecomesColumn(w, h, colors, cx, cy);
    ColumnBecomesRow(w, h, colors, cx, cy);
    var c := Pattern(w, h, colors, Column(cx, cy));
    assert c[cy - 1][cx] != g[cy - 1][cx];
  }
}
