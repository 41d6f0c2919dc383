/**
 * The cellular automaton of gol.c: reading a cell from a pixel, counting the
 * live cells of its Moore neighbourhood with clamped borders, and the
 * transition of one cell and of a whole surface under configurable
 * survive/birth intervals.
 */
module Life {
  import opened Surfaces

  /** gol.c's `uint8_t`. */
  type uint8 = n: int | 0 <= n < 256

  /**
   * The transition rule's thresholds: a live cell survives with
   * `surviveMin..surviveMax` live neighbours, a dead cell is born with
   * `reproductionMin..reproductionMax` (both intervals inclusive).
   */
  datatype Rules = Rules(surviveMin: uint8, surviveMax: uint8, reproductionMin: uint8, reproductionMax: uint8)

  /**
   * The leading bytes that painting a pixel with the alive colour and with the
   * dead colour leave in the surface. Which bytes these are depends on the
   * surface's pixel format (the byte order of the mapped RGBA value).
   */
  datatype Colors = Colors(alive: Byte, dead: Byte)

  /** A leading byte reads as a live cell: its most significant bit is set. */
  predicate Live(b: Byte)
  {
    b & 0x80 != 0
  }

  /**
   * The colours read back as what they were painted for. Whether this holds
   * depends on the pixel format; the cell-level facts below assume it.
   */
  predicate Faithful(colors: Colors)
  {
    Live(colors.alive) && !Live(colors.dead)
  }

  /** IsAlive: the most significant bit of pixel (x, y)'s leading byte, as 0 or 1. */
  function IsAlive(g: Grid, w: int, h: int, x: int, y: int): (bit: nat)
    requires Shaped(g, w, h) && 0 <= x < w && 0 <= y < h
    ensures bit <= 1
  {
    if Live(g[y][x]) then 1 else 0
  }

  /** The leading byte's top bit is set exactly when its unsigned value is at least 128. */
  lemma IsAliveReadsTopBit(g: Grid, w: int, h: int, x: int, y: int)
    requires Shaped(g, w, h) && 0 <= x < w && 0 <= y < h
    ensures IsAlive(g, w, h, x, y) == 1 <==> g[y][x] >= 0x80
    ensures IsAlive(g, w, h, x, y) == 0 <==> g[y][x] < 0x80
  {
  }

  function Min(a: int, b: int): (m: int) { if a <= b then a else b }
  function Max(a: int, b: int): (m: int) { if a <= b then b else a }

  /** The number of coordinates of [i - 1, i + 1] that lie in [0, n). */
  function Span(i: int, n: int): (k: int)
  {
    Min(i + 1, n - 1) - Max(i - 1, 0) + 1
  }

  /**
   * The number of in-bounds positions of the 3×3 block centred on (x, y),
   * the centre excluded: how many cells the clamped neighbour count reads.
   */
  function Candidates(w: int, h: int, x: int, y: int): (k: int)
  {
    Span(x, w) * Span(y, h) - 1
  }

  /** The guards of the neighbour count pass exactly `Candidates` times. */
  lemma CandidatesAreGuards(w: int, h: int, x: int, y: int)
    requires 0 <= x < w && 0 <= y < h
    ensures Candidates(w, h, x, y) ==
      (if y - 1 >= 0 && x - 1 >= 0 then 1 else 0)
      + (if y - 1 >= 0 then 1 else 0)
      + (if y - 1 >= 0 && x + 1 < w then 1 else 0)
      + (if x - 1 >= 0 then 1 else 0)
      + (if x + 1 < w then 1 else 0)
      + (if y + 1 < h && x - 1 >= 0 then 1 else 0)
      + (if y + 1 < h then 1 else 0)
      + (if y + 1 < h && x + 1 < w then 1 else 0)
    ensures 0 <= Candidates(w, h, x, y) <= 8
  {
    var cols := (if x - 1 >= 0 then 1 else 0) + 1 + (if x + 1 < w then 1 else 0);
    var rows := (if y - 1 >= 0 then 1 else 0) + 1 + (if y + 1 < h then 1 else 0);
    assert Span(x, w) == cols && Span(y, h) == rows;
    if cols == 1 {
      assert Candidates(w, h, x, y) == rows - 1;
    } else if cols == 2 {
      assert Candidates(w, h, x, y) == 2 * rows - 1;
    } else {
      assert Candidates(w, h, x, y) == 3 * rows - 1;
    }
  }

  /**
   * GetAliveNeighborCount: the live cells among the eight neighbours of
   * (x, y), each neighbour that falls outside the surface being skipped.
   */
  function NeighborCount(g: Grid, w: int, h: int, x: int, y: int): (n: nat)
    requires Shaped(g, w, h) && 0 <= x < w && 0 <= y < h
    ensures n <= 8
  {
    (if y - 1 >= 0 && x - 1 >= 0 then IsAlive(g, w, h, x - 1, y - 1) else 0)
    + (if y - 1 >= 0 then IsAlive(g, w, h, x, y - 1) else 0)
    + (if y - 1 >= 0 && x + 1 < w then IsAlive(g, w, h, x + 1, y - 1) else 0)
    + (if x - 1 >= 0 then IsAlive(g, w, h, x - 1, y) else 0)
    + (if x + 1 < w then IsAlive(g, w, h, x + 1, y) else 0)
    + (if y + 1 < h && x - 1 >= 0 then IsAlive(g, w, h, x - 1, y + 1) else 0)
    + (if y + 1 < h then IsAlive(g, w, h, x, y + 1) else 0)
    + (if y + 1 < h && x + 1 < w then IsAlive(g, w, h, x + 1, y + 1) else 0)
  }

  /** The count never exceeds the number of in-bounds neighbours. */
  lemma CountWithinCandidates(g: Grid, w: int, h: int, x: int, y: int)
    requires Shaped(g, w, h) && 0 <= x < w && 0 <= y < h
    ensures NeighborCount(g, w, h, x, y) <= Candidates(w, h, x, y) <= 8
  {
    CandidatesAreGuards(w, h, x, y);
  }

  /** (x', y') is one of the eight neighbours of (x, y) on the grid. */
  predicate Neighbor(w: int, h: int, x: int, y: int, x': int, y': int)
  {
    0 <= x' < w && 0 <= y' < h &&
    x - 1 <= x' <= x + 1 && y - 1 <= y' <= y + 1 && (x' != x || y' != y)
  }

  /**
   * Only the eight in-bounds neighbours matter: two surfaces whose neighbours
   * of (x, y) read the same give the same count, whatever the centre holds.
   */
  lemma NeighborCountLocal(g1: Grid, g2: Grid, w: int, h: int, x: int, y: int)
    requires Shaped(g1, w, h) && Shaped(g2, w, h) && 0 <= x < w && 0 <= y < h
    requires forall x', y' :: Neighbor(w, h, x, y, x', y') ==> Live(g1[y'][x']) == Live(g2[y'][x'])
    ensures NeighborCount(g1, w, h, x, y) == NeighborCount(g2, w, h, x, y)
  {
    if y - 1 >= 0 && x - 1 >= 0 { assert Neighbor(w, h, x, y, x - 1, y - 1); }
    if y - 1 >= 0 { assert Neighbor(w, h, x, y, x, y - 1); }
    if y - 1 >= 0 && x + 1 < w { assert Neighbor(w, h, x, y, x + 1, y - 1); }
    if x - 1 >= 0 { assert Neighbor(w, h, x, y, x - 1, y); }
    if x + 1 < w { assert Neighbor(w, h, x, y, x + 1, y); }
    if y + 1 < h && x - 1 >= 0 { assert Neighbor(w, h, x, y, x - 1, y + 1); }
    if y + 1 < h { assert Neighbor(w, h, x, y, x, y + 1); }
    if y + 1 < h && x + 1 < w { assert Neighbor(w, h, x, y, x + 1, y + 1); }
  }

  /** The centre cell is never counted: repainting it leaves its count unchanged. */
  lemma NeighborCountIgnoresCentre(g: Grid, w: int, h: int, x: int, y: int, b: Byte)
    requires Shaped(g, w, h) && 0 <= x < w && 0 <= y < h
    ensures Shaped(g[y := g[y][x := b]], w, h)
    ensures NeighborCount(g[y := g[y][x := b]], w, h, x, y) == NeighborCount(g, w, h, x, y)
  {
    var g' := g[y := g[y][x := b]];
    assert forall x', y' :: Neighbor(w, h, x, y, x', y') ==> g'[y'][x'] == g[y'][x'];
    NeighborCountLocal(g', g, w, h, x, y);
  }

  /** With every neighbour alive the count reaches the number of candidates. */
  lemma FullNeighborhood(g: Grid, w: int, h: int, x: int, y: int)
    requires Shaped(g, w, h) && 0 <= x < w && 0 <= y < h
    requires forall x', y' :: Neighbor(w, h, x, y, x', y') ==> Live(g[y'][x'])
    ensures NeighborCount(g, w, h, x, y) == Candidates(w, h, x, y)
  {
    assert NeighborCount(g, w, h, x, y) ==
      (if y - 1 >= 0 && x - 1 >= 0 then 1 else 0)
      + (if y - 1 >= 0 then 1 else 0)
      + (if y - 1 >= 0 && x + 1 < w then 1 else 0)
      + (if x - 1 >= 0 then 1 else 0)
      + (if x + 1 < w then 1 else 0)
      + (if y + 1 < h && x - 1 >= 0 then 1 else 0)
      + (if y + 1 < h then 1 else 0)
      + (if y + 1 < h && x + 1 < w then 1 else 0)
    by {
      assert y - 1 >= 0 && x - 1 >= 0 ==> Neighbor(w, h, x, y, x - 1, y - 1);
      assert y - 1 >= 0 ==> Neighbor(w, h, x, y, x, y - 1);
      assert y - 1 >= 0 && x + 1 < w ==> Neighbor(w, h, x, y, x + 1, y - 1);
      assert x - 1 >= 0 ==> Neighbor(w, h, x, y, x - 1, y);
      assert x + 1 < w ==> Neighbor(w, h, x, y, x + 1, y);
      assert y + 1 < h && x - 1 >= 0 ==> Neighbor(w, h, x, y, x - 1, y + 1);
      assert y + 1 < h ==> Neighbor(w, h, x, y, x, y + 1);
      assert y + 1 < h && x + 1 < w ==> Neighbor(w, h, x, y, x + 1, y + 1);
    }
    CandidatesAreGuards(w, h, x, y);
  }

  /** With no neighbour alive the count is zero. */
  lemma EmptyNeighborhood(g: Grid, w: int, h: int, x: int, y: int)
    requires Shaped(g, w, h) && 0 <= x < w && 0 <= y < h
    requires forall x', y' :: Neighbor(w, h, x, y, x', y') ==> !Live(g[y'][x'])
    ensures NeighborCount(g, w, h, x, y) == 0
  {
    assert y - 1 >= 0 && x - 1 >= 0 ==> Neighbor(w, h, x, y, x - 1, y - 1);
    assert y - 1 >= 0 ==> Neighbor(w, h, x, y, x, y - 1);
    assert y - 1 >= 0 && x + 1 < w ==> Neighbor(w, h, x, y, x + 1, y - 1);
    assert x - 1 >= 0 ==> Neighbor(w, h, x, y, x - 1, y);
    assert x + 1 < w ==> Neighbor(w, h, x, y, x + 1, y);
    assert y + 1 < h && x - 1 >= 0 ==> Neighbor(w, h, x, y, x - 1, y + 1);
    assert y + 1 < h ==> Neighbor(w, h, x, y, x, y + 1);
    assert y + 1 < h && x + 1 < w ==> Neighbor(w, h, x, y, x + 1, y + 1);
  }

  /** The live cells among the eight in-bounds neighbours of (x, y), as a set of coordinates. */
  ghost function LiveNeighbors(g: Grid, w: int, h: int, x: int, y: int): set<(int, int)>
    requires Shaped(g, w, h)
  {
    set x', y' | x - 1 <= x' <= x + 1 && y - 1 <= y' <= y + 1 && Neighbor(w, h, x, y, x', y') && Live(g[y'][x']) :: (x', y')
  }

  /** Position (x', y') of the 3×3 block around (x, y), when it is a live neighbour. */
  ghost function LiveAt(g: Grid, w: int, h: int, x: int, y: int, x': int, y': int): set<(int, int)>
    requires Shaped(g, w, h)
  {
    if Neighbor(w, h, x, y, x', y') && Live(g[y'][x']) then {(x', y')} else {}
  }

  /** The live neighbours of (x, y) in row y', as a set of coordinates. */
  ghost function LiveInRow(g: Grid, w: int, h: int, x: int, y: int, y': int): set<(int, int)>
    requires Shaped(g, w, h)
  {
    LiveAt(g, w, h, x, y, x - 1, y') + LiveAt(g, w, h, x, y, x, y') + LiveAt(g, w, h, x, y, x + 1, y')
  }

  /** A row holds one live neighbour for each of its three positions that is one. */
  lemma LiveInRowSize(g: Grid, w: int, h: int, x: int, y: int, y': int)
    requires Shaped(g, w, h)
    ensures |LiveInRow(g, w, h, x, y, y')| ==
      |LiveAt(g, w, h, x, y, x - 1, y')| + |LiveAt(g, w, h, x, y, x, y')| + |LiveAt(g, w, h, x, y, x + 1, y')|
  {
    var a, b, c := LiveAt(g, w, h, x, y, x - 1, y'), LiveAt(g, w, h, x, y, x, y'), LiveAt(g, w, h, x, y, x + 1, y');
    assert a * b == {};
    assert |a + b| == |a| + |b|;
    assert (a + b) * c == {};
    assert |a + b + c| == |a + b| + |c|;
  }

  /** A position of the block holds one live neighbour exactly when the guarded addition for it adds one. */
  lemma LiveAtSize(g: Grid, w: int, h: int, x: int, y: int, x': int, y': int)
    requires Shaped(g, w, h) && 0 <= x < w && 0 <= y < h
    requires x - 1 <= x' <= x + 1 && y - 1 <= y' <= y + 1
    ensures |LiveAt(g, w, h, x, y, x', y')| ==
      if 0 <= x' < w && 0 <= y' < h && (x' != x || y' != y) then IsAlive(g, w, h, x', y') else 0
  {
  }

  /** The live neighbours split into those of the row above, of the cell's own row and of the row below. */
  lemma LiveNeighborsByRow(g: Grid, w: int, h: int, x: int, y: int)
    requires Shaped(g, w, h)
    ensures LiveNeighbors(g, w, h, x, y) ==
      LiveInRow(g, w, h, x, y, y - 1) + LiveInRow(g, w, h, x, y, y) + LiveInRow(g, w, h, x, y, y + 1)
  {
    var rows := LiveInRow(g, w, h, x, y, y - 1) + LiveInRow(g, w, h, x, y, y) + LiveInRow(g, w, h, x, y, y + 1);
    forall p | p in rows ensures p in LiveNeighbors(g, w, h, x, y) {
      var (x', y') := p;
      assert p == (x', y');
    }
    forall p | p in LiveNeighbors(g, w, h, x, y) ensures p in rows {
      var x', y' :| x - 1 <= x' <= x + 1 && y - 1 <= y' <= y + 1 && Neighbor(w, h, x, y, x', y') && Live(g[y'][x']) && p == (x', y');
      assert p in LiveAt(g, w, h, x, y, x', y');
    }
  }

  /** The live neighbours drawn from row y' all lie in row y'. */
  lemma LiveInRowIsRow(g: Grid, w: int, h: int, x: int, y: int, y': int)
    requires Shaped(g, w, h)
    ensures forall p :: p in LiveInRow(g, w, h, x, y, y') ==> p.1 == y'
  {
  }

  /** The three rows' live neighbours are disjoint, so their numbers add up. */
  lemma LiveNeighborsSize(g: Grid, w: int, h: int, x: int, y: int)
    requires Shaped(g, w, h)
    ensures |LiveNeighbors(g, w, h, x, y)| ==
      |LiveInRow(g, w, h, x, y, y - 1)| + |LiveInRow(g, w, h, x, y, y)| + |LiveInRow(g, w, h, x, y, y + 1)|
  {
    var above, level, below := LiveInRow(g, w, h, x, y, y - 1), LiveInRow(g, w, h, x, y, y), LiveInRow(g, w, h, x, y, y + 1);
    LiveNeighborsByRow(g, w, h, x, y);
    LiveInRowIsRow(g, w, h, x, y, y - 1);
    LiveInRowIsRow(g, w, h, x, y, y);
    LiveInRowIsRow(g, w, h, x, y, y + 1);
    assert above !! level by {
      forall p | p in above ensures p !in level { }
    }
    assert |above + level| == |above| + |level|;
    assert (above + level) !! below by {
      forall p | p in above + level ensures p !in below { }
    }
  }

  /**
   * The neighbour count is the number of live cells among the in-bounds
   * neighbours of (x, y): each of the eight guarded additions contributes
   * exactly when its neighbour exists and is alive, and no cell is counted
   * twice or missed.
   */
  lemma NeighborCountIsLiveNeighbors(g: Grid, w: int, h: int, x: int, y: int)
    requires Shaped(g, w, h) && 0 <= x < w && 0 <= y < h
    ensures NeighborCount(g, w, h, x, y) == |LiveNeighbors(g, w, h, x, y)|
  {
    LiveNeighborsSize(g, w, h, x, y);
    LiveInRowSize(g, w, h, x, y, y - 1);
    LiveInRowSize(g, w, h, x, y, y);
    LiveInRowSize(g, w, h, x, y, y + 1);
    LiveAtSize(g, w, h, x, y, x - 1, y - 1);
    LiveAtSize(g, w, h, x, y, x, y - 1);
    LiveAtSize(g, w, h, x, y, x + 1, y - 1);
    LiveAtSize(g, w, h, x, y, x - 1, y);
    LiveAtSize(g, w, h, x, y, x, y);
    LiveAtSize(g, w, h, x, y, x + 1, y);
    LiveAtSize(g, w, h, x, y, x - 1, y + 1);
    LiveAtSize(g, w, h, x, y, x, y + 1);
    LiveAtSize(g, w, h, x, y, x + 1, y + 1);
  }

  /**
   * How many cells the count reads by position: at most 3 in a corner, at most
   * 5 on a border away from the corners, exactly 8 inside; 3 and 5 exactly
   * once the surface is wide and tall enough for those neighbours to exist.
   */
  lemma CandidatesByPosition(w: int, h: int, x: int, y: int)
    requires 0 <= x < w && 0 <= y < h
    ensures (x == 0 || x == w - 1) && (y == 0 || y == h - 1) ==> Candidates(w, h, x, y) <= 3
    ensures (x == 0 || x == w - 1) && (y == 0 || y == h - 1) && w >= 2 && h >= 2 ==> Candidates(w, h, x, y) == 3
    ensures (x == 0 || x == w - 1) && 0 < y < h - 1 ==> Candidates(w, h, x, y) <= 5
    ensures (y == 0 || y == h - 1) && 0 < x < w - 1 ==> Candidates(w, h, x, y) <= 5
    ensures (x == 0 || x == w - 1) && 0 < y < h - 1 && w >= 2 ==> Candidates(w, h, x, y) == 5
    ensures (y == 0 || y == h - 1) && 0 < x < w - 1 && h >= 2 ==> Candidates(w, h, x, y) == 5
    ensures 0 < x < w - 1 && 0 < y < h - 1 ==> Candidates(w, h, x, y) == 8
  {
    CandidatesAreGuards(w, h, x, y);
  }

  /**
   * The new leading byte of pixel (x, y) after one generation: the pixel is
   * first copied, then a live cell outside the survival interval is painted
   * dead and a dead cell inside the birth interval is painted alive.
   */
  function NextPixel(g: Grid, w: int, h: int, rules: Rules, colors: Colors, x: int, y: int): (r: Byte)
    requires Shaped(g, w, h) && 0 <= x < w && 0 <= y < h
    ensures r == g[y][x] || r == colors.alive || r == colors.dead
    ensures Faithful(colors) ==>
      var n := NeighborCount(g, w, h, x, y);
      (Live(r) <==> if Live(g[y][x]) then rules.surviveMin <= n <= rules.surviveMax
                    else rules.reproductionMin <= n <= rules.reproductionMax)
  {
    var aliveNeighbors := NeighborCount(g, w, h, x, y);
    var isAlive := IsAlive(g, w, h, x, y);
    if isAlive == 1 && (aliveNeighbors < rules.surviveMin || aliveNeighbors > rules.surviveMax) then
      colors.dead
    else if isAlive == 0 && (aliveNeighbors >= rules.reproductionMin && aliveNeighbors <= rules.reproductionMax) then
      colors.alive
    else
      g[y][x]
  }

  /** The whole next generation of surface `g`. */
  function NextGeneration(g: Grid, w: int, h: int, rules: Rules, colors: Colors): (r: Grid)
    requires Shaped(g, w, h)
    ensures Shaped(r, w, h)
    ensures forall y, x :: 0 <= y < h && 0 <= x < w ==> r[y][x] == NextPixel(g, w, h, rules, colors, x, y)
    ensures forall y, x :: 0 <= y < h && 0 <= x < w ==>
      var n := NeighborCount(g, w, h, x, y);
      r[y][x] == if Live(g[y][x]) && (n < rules.surviveMin || n > rules.surviveMax) then colors.dead
                 else if !Live(g[y][x]) && rules.reproductionMin <= n <= rules.reproductionMax then colors.alive
                 else g[y][x]
  {
    seq(h, y requires 0 <= y < h =>
      seq(w, x requires 0 <= x < w => NextPixel(g, w, h, rules, colors, x, y)))
  }

  /**
   * The life-and-death rule, read back from the bytes: with faithful colours a
   * cell is alive in the next generation exactly when it is alive and its
   * count is in the survival interval, or dead and its count is in the birth
   * interval.
   */
  lemma TransitionRule(g: Grid, w: int, h: int, rules: Rules, colors: Colors, x: int, y: int)
    requires Shaped(g, w, h) && 0 <= x < w && 0 <= y < h && Faithful(colors)
    ensures var n := NeighborCount(g, w, h, x, y);
      Live(NextGeneration(g, w, h, rules, colors)[y][x]) <==>
        if Live(g[y][x]) then rules.surviveMin <= n <= rules.surviveMax
        else rules.reproductionMin <= n <= rules.reproductionMax
  {
  }

  /**
   * Each new pixel depends on the old surface only through the 3×3 block
   * around it, and only reads it: this is what makes the cell updates
   * independent of the order in which they are made.
   */
  lemma NextPixelLocal(g1: Grid, g2: Grid, w: int, h: int, rules: Rules, colors: Colors, x: int, y: int)
    requires Shaped(g1, w, h) && Shaped(g2, w, h) && 0 <= x < w && 0 <= y < h
    requires g1[y][x] == g2[y][x]
    requires forall x', y' :: Neighbor(w, h, x, y, x', y') ==> Live(g1[y'][x']) == Live(g2[y'][x'])
    ensures NextPixel(g1, w, h, rules, colors, x, y) == NextPixel(g2, w, h, rules, colors, x, y)
  {
    NeighborCountLocal(g1, g2, w, h, x, y);
  }

  /** Every pixel holds the alive or the dead colour. */
  predicate Binary(g: Grid, w: int, h: int, colors: Colors)
    requires Shaped(g, w, h)
  {
    forall y, x :: 0 <= y < h && 0 <= x < w ==> g[y][x] == colors.alive || g[y][x] == colors.dead
  }

  /** A surface holding only the two colours keeps holding only them. */
  lemma NextGenerationBinary(g: Grid, w: int, h: int, rules: Rules, colors: Colors)
    requires Shaped(g, w, h) && Binary(g, w, h, colors)
    ensures Binary(NextGeneration(g, w, h, rules, colors), w, h, colors)
  {
  }
}
