/**
  The arithmetic of the toroidal grid and the rules of Conway's Game of Life,
  as pure functions over a flat, row-major cell sequence. These are the
  reference definitions that the imperative engine in module Engine is proved
  against.
 */
module Life {

  // ------------------------------------------------------------------
  // Flat, row-major addressing: cell (w, h) lives at `w + h*width`.

  function Idx(w: nat, h: nat, width: nat): nat
  {
    h * width + w
  }

  lemma IdxBound(w: nat, h: nat, width: nat, height: nat)
    requires w < width && h < height
    ensures Idx(w, h, width) < width * height
  {
    assert h + 1 <= height;
    assert (h + 1) * width <= height * width by {
      MulMonotone(h + 1, height, width);
    }
  }

  lemma MulMonotone(a: nat, b: nat, c: nat)
    requires a <= b
    ensures a * c <= b * c
  {
  }

  /** Two in-range coordinates share a flat position only if they are the same cell. */
  lemma IdxInjective(w1: nat, h1: nat, w2: nat, h2: nat, width: nat)
    requires w1 < width && w2 < width
    requires Idx(w1, h1, width) == Idx(w2, h2, width)
    ensures w1 == w2 && h1 == h2
  {
    if h1 < h2 {
      IdxBound(w1, h1, width, h2);
      assert false;
    } else if h2 < h1 {
      IdxBound(w2, h2, width, h1);
      assert false;
    }
  }

  /** Every flat position of a `width * height` grid is the position of exactly one cell. */
  lemma FlatToGrid(k: nat, width: nat, height: nat)
    requires k < width * height
    ensures width > 0 && k % width < width && k / width < height
    ensures Idx(k % width, k / width, width) == k
  {
    if k / width >= height {
      MulMonotone(height, k / width, width);
      assert false;
    }
  }

  lemma IdxDivMod(w: nat, h: nat, width: nat)
    requires w < width
    ensures Idx(w, h, width) % width == w && Idx(w, h, width) / width == h
  {
    var k := Idx(w, h, width);
    IdxInjective(k % width, k / width, w, h, width);
  }

  /** The cell at column `w`, row `h` of a grid stored as `cells`. */
  function At(cells: seq<bool>, width: nat, height: nat, w: nat, h: nat): bool
    requires |cells| == width * height && w < width && h < height
  {
    IdxBound(w, h, width, height);
    cells[Idx(w, h, width)]
  }

  /** `cells` with cell (w, h) set to `b`. */
  function Put(cells: seq<bool>, width: nat, height: nat, w: nat, h: nat, b: bool): (r: seq<bool>)
    requires |cells| == width * height && w < width && h < height
    ensures |r| == |cells|
  {
    IdxBound(w, h, width, height);
    cells[Idx(w, h, width) := b]
  }

  /** Writing one cell changes that cell and no other. */
  lemma AtPut(cells: seq<bool>, width: nat, height: nat, w: nat, h: nat, b: bool, x: nat, y: nat)
    requires |cells| == width * height && w < width && h < height && x < width && y < height
    ensures At(Put(cells, width, height, w, h, b), width, height, x, y)
            == if x == w && y == h then b else At(cells, width, height, x, y)
  {
    IdxBound(w, h, width, height);
    IdxBound(x, y, width, height);
    if Idx(x, y, width) == Idx(w, h, width) {
      IdxInjective(x, y, w, h, width);
    }
  }

  /** Two grids of the same dimensions that agree on every cell are equal. */
  lemma GridExtensionality(a: seq<bool>, b: seq<bool>, width: nat, height: nat)
    requires |a| == width * height && |b| == width * height
    requires forall x: nat, y: nat :: x < width && y < height ==> At(a, width, height, x, y) == At(b, width, height, x, y)
    ensures a == b
  {
    forall k | 0 <= k < |a|
      ensures a[k] == b[k]
    {
      FlatToGrid(k, width, height);
      assert At(a, width, height, k % width, k / width) == At(b, width, height, k % width, k / width);
    }
  }

  // ------------------------------------------------------------------
  // The number of live cells.

  function Population(cells: seq<bool>): (n: nat)
    ensures n <= |cells|
  {
    if cells == [] then 0
    else Population(cells[..|cells| - 1]) + (if cells[|cells| - 1] then 1 else 0)
  }

  /** Flipping one cell moves the population by exactly one. */
  lemma {:induction false} PopulationUpdate(cells: seq<bool>, k: nat, b: bool)
    requires k < |cells| && cells[k] != b
    ensures Population(cells[k := b]) == if b then Population(cells) + 1 else Population(cells) - 1
  {
    var n := |cells| - 1;
    if k == n {
      assert cells[k := b][..n] == cells[..n];
    } else {
      assert cells[k := b][..n] == cells[..n][k := b];
      PopulationUpdate(cells[..n], k, b);
    }
  }

  /** A grid has no live cell exactly when its population is zero. */
  lemma {:induction false} PopulationZero(cells: seq<bool>)
    ensures Population(cells) == 0 <==> forall k :: 0 <= k < |cells| ==> !cells[k]
  {
    if cells != [] {
      var n := |cells| - 1;
      PopulationZero(cells[..n]);
      assert forall k :: 0 <= k < n ==> cells[..n][k] == cells[k];
    }
  }

  // ------------------------------------------------------------------
  // Toroidal coordinates.

  /**
    Coordinate `w` moved by the signed offset `offs` on a ring of size `wrap`,
    computed with unsigned arithmetic only: a non-negative offset is added and
    reduced; a negative one is subtracted directly when that stays non-negative,
    and otherwise the shortfall is reduced and reflected from `wrap`.
   */
  function Wrapped(w: nat, offs: int, wrap: nat): (r: nat)
    requires wrap > 0
    ensures w < wrap ==> r < wrap && r == (w + offs) % wrap
  {
    if offs >= 0 then
      (w + offs) % wrap
    else
      var o := -offs;
      if w >= o then
        SmallMod(w - o, wrap);
        w - o
      else
        NegativeMod(o - w, wrap);
        var u := (o - w) % wrap;
        if u > 0 then wrap - u else u
  }

  /** The Euclidean remainder of `-m` in terms of the remainder of `m`. */
  lemma NegativeMod(m: nat, wrap: nat)
    requires wrap > 0
    ensures (-(m as int)) % wrap == if m % wrap > 0 then wrap - m % wrap else 0
  {
    var q, u := m / wrap, m % wrap;
    assert m == q * wrap + u;
    if u > 0 {
      assert -(m as int) == (-q - 1) * wrap + (wrap - u);
      ModUnique(-(m as int), -q - 1, wrap - u, wrap);
    } else {
      assert -(m as int) == (-q) * wrap + 0;
      ModUnique(-(m as int), -q, 0, wrap);
    }
  }

  /** A number already in `[0, m)` is its own remainder. */
  lemma SmallMod(x: int, m: nat)
    requires m > 0
    ensures 0 <= x < m ==> x % m == x
  {
    if 0 <= x < m {
      ModUnique(x, 0, x, m);
    }
  }

  /** A remainder in `[0, m)` of any quotient-remainder split is the Euclidean remainder. */
  lemma ModUnique(x: int, q: int, r: int, m: nat)
    requires m > 0 && 0 <= r < m && x == q * m + r
    ensures x % m == r
  {
    var q', r' := x / m, x % m;
    assert (q' - q) * m == r - r';
    if q' > q {
      MulMonotone(1, q' - q, m);
      assert false;
    } else if q' < q {
      MulMonotone(1, q - q', m);
      assert false;
    }
  }

  /** The values the engine's own unit test expects, on a ring of five. */
  lemma WrappedExamples()
    ensures Wrapped(1, 1, 5) == 2 && Wrapped(1, -1, 5) == 0 && Wrapped(0, -1, 5) == 4 && Wrapped(0, -2, 5) == 3
    ensures Wrapped(0, -11, 5) == 4 && Wrapped(0, -10, 5) == 0 && Wrapped(1, -11, 5) == 0 && Wrapped(2, -11, 5) == 1
  {
  }

  // ------------------------------------------------------------------
  // Neighbours and the Life rule.

  /** The eight neighbour offsets `(dx, dy)`, in the order the engine visits them. */
  const Offsets: seq<(int, int)> := [(-1, -1), (0, -1), (1, -1), (-1, 0), (1, 0), (-1, 1), (0, 1), (1, 1)]

  /**
    The number of live cells among the positions `(w + dx, h + dy)`, reduced
    modulo the grid's dimensions, for each `(dx, dy)` in `offs`. Positions that
    coincide on a small torus are counted once per offset.
   */
  function LiveAmong(cells: seq<bool>, width: nat, height: nat, w: nat, h: nat, offs: seq<(int, int)>): (n: nat)
    requires width > 0 && height > 0 && |cells| == width * height
    ensures n <= |offs|
  {
    if offs == [] then 0
    else
      var d := offs[|offs| - 1];
      LiveAmong(cells, width, height, w, h, offs[..|offs| - 1])
      + (if At(cells, width, height, (w + d.0) % width, (h + d.1) % height) then 1 else 0)
  }

  /** The number of live neighbours of cell (w, h) on the torus. */
  function Neighbours(cells: seq<bool>, width: nat, height: nat, w: nat, h: nat): (n: nat)
    requires width > 0 && height > 0 && |cells| == width * height
    ensures n <= 8
  {
    LiveAmong(cells, width, height, w, h, Offsets)
  }

  /** Conway's rule: the next state of a cell that is `alive` now and has `n` live neighbours. */
  function NextState(alive: bool, n: nat): (next: bool)
    ensures alive && (n < 2 || n > 3) ==> !next
    ensures alive && 2 <= n <= 3 ==> next
    ensures !alive && n == 3 ==> next
    ensures !alive && n != 3 ==> !next
  {
    if alive then n == 2 || n == 3 else n == 3
  }

  /**
    The whole next generation, every cell computed from the snapshot `cells`
    alone: the reference for the simultaneous update.
   */
  function Successor(cells: seq<bool>, width: nat, height: nat): (next: seq<bool>)
    requires |cells| == width * height
    ensures |next| == |cells|
  {
    if width == 0 || height == 0 then cells
    else seq(|cells|, k requires 0 <= k < |cells| =>
                        NextState(cells[k], Neighbours(cells, width, height, k % width, k / width)))
  }

  /** The state of cell (w, h) in the generation after `cells`. */
  function NextAt(cells: seq<bool>, width: nat, height: nat, w: nat, h: nat): bool
    requires |cells| == width * height && w < width && h < height
  {
    NextState(At(cells, width, height, w, h), Neighbours(cells, width, height, w, h))
  }

  /** Cell (w, h) of the next generation is the Life rule applied to the snapshot. */
  lemma SuccessorAt(cells: seq<bool>, width: nat, height: nat, w: nat, h: nat)
    requires |cells| == width * height && w < width && h < height
    ensures At(Successor(cells, width, height), width, height, w, h) == NextAt(cells, width, height, w, h)
  {
    IdxDivMod(w, h, width);
    IdxBound(w, h, width, height);
    var k := Idx(w, h, width);
    assert width > 0 && height > 0;
    assert Successor(cells, width, height)[k] == NextState(cells[k], Neighbours(cells, width, height, k % width, k / width));
  }

  /**
    The Life rule, cell by cell: a live cell with fewer than two or more than
    three live neighbours dies, a dead cell with exactly three is born, and every
    other cell keeps its state; a cell has at most eight live neighbours.
   */
  lemma SuccessorRule(cells: seq<bool>, width: nat, height: nat, w: nat, h: nat)
    requires |cells| == width * height && w < width && h < height
    ensures Neighbours(cells, width, height, w, h) <= 8
    ensures var n, before := Neighbours(cells, width, height, w, h), At(cells, width, height, w, h);
            var after := At(Successor(cells, width, height), width, height, w, h);
            && (before && (n < 2 || n > 3) ==> !after)
            && (!before && n == 3 ==> after)
            && (before && 2 <= n <= 3 ==> after)
            && (!before && n != 3 ==> !after)
  {
    SuccessorAt(cells, width, height, w, h);
  }

  /** On a grid without live cells no position is counted. */
  lemma {:induction false} LiveAmongDead(cells: seq<bool>, width: nat, height: nat, w: nat, h: nat, offs: seq<(int, int)>)
    requires width > 0 && height > 0 && |cells| == width * height
    requires forall k :: 0 <= k < |cells| ==> !cells[k]
    ensures LiveAmong(cells, width, height, w, h, offs) == 0
  {
    if offs != [] {
      var d := offs[|offs| - 1];
      LiveAmongDead(cells, width, height, w, h, offs[..|offs| - 1]);
      IdxBound((w + d.0) % width, (h + d.1) % height, width, height);
    }
  }

  /** A grid without live cells is its own successor: nothing is ever born from nothing. */
  lemma DeadGridIsStill(cells: seq<bool>, width: nat, height: nat)
    requires |cells| == width * height && Population(cells) == 0
    ensures Successor(cells, width, height) == cells
  {
    PopulationZero(cells);
    var next := Successor(cells, width, height);
    forall x: nat, y: nat | x < width && y < height
      ensures At(next, width, height, x, y) == At(cells, width, height, x, y)
    {
      SuccessorAt(cells, width, height, x, y);
      LiveAmongDead(cells, width, height, x, y, Offsets);
      IdxBound(x, y, width, height);
    }
    GridExtensionality(next, cells, width, height);
  }

  /** Row-major order of cells: row `h` outer, column `w` inner. */
  predicate RowMajorBefore(w1: nat, h1: nat, w2: nat, h2: nat)
  {
    h1 < h2 || (h1 == h2 && w1 < w2)
  }

}
