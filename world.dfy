/**
  The grid engine: a `width * height` toroidal grid of cells stored row-major
  in one flat sequence, with a generation counter and a cached count of live
  cells, updated in place.
 */
module Engine {

  import opened Life
  import opened Results

  /** One recorded flip: cell (w, h) takes the state `alive` in the next generation. */
  datatype Change = Change(w: nat, h: nat, alive: bool)

  /** Strictly increasing in row-major order (row outer, column inner), hence without repeats. */
  predicate InRowMajorOrder(changes: seq<Change>)
  {
    forall i, j :: 0 <= i < j < |changes| ==> RowMajorBefore(changes[i].w, changes[i].h, changes[j].w, changes[j].h)
  }

  /** `c` names an in-range cell of `cells` whose state the Life rule flips, with its new state. */
  predicate IsFlip(c: Change, cells: seq<bool>, width: nat, height: nat)
    requires |cells| == width * height && c.w < width && c.h < height
  {
    && c.alive != At(cells, width, height, c.w, c.h)
    && c.alive == NextAt(cells, width, height, c.w, c.h)
  }

  /**
    A grid in which every cell holds either its old state or its next state,
    and every flip of a complete list of flips has been applied, is the next
    generation.
   */
  lemma FlipsApplied(before: seq<bool>, after: seq<bool>, width: nat, height: nat, changes: seq<Change>)
    requires |before| == width * height && |after| == width * height
    requires forall i :: 0 <= i < |changes| ==> changes[i].w < width && changes[i].h < height && IsFlip(changes[i], before, width, height)
    requires forall x: nat, y: nat | x < width && y < height && NextAt(before, width, height, x, y) != At(before, width, height, x, y) ::
               exists i :: 0 <= i < |changes| && changes[i].w == x && changes[i].h == y
    requires forall i :: 0 <= i < |changes| ==> At(after, width, height, changes[i].w, changes[i].h) == changes[i].alive
    requires forall x: nat, y: nat :: x < width && y < height ==>
               At(after, width, height, x, y) == At(before, width, height, x, y)
               || At(after, width, height, x, y) == NextAt(before, width, height, x, y)
    ensures after == Successor(before, width, height)
  {
    forall x: nat, y: nat | x < width && y < height
      ensures At(after, width, height, x, y) == At(Successor(before, width, height), width, height, x, y)
    {
      SuccessorAt(before, width, height, x, y);
      if NextAt(before, width, height, x, y) != At(before, width, height, x, y) {
        var i :| 0 <= i < |changes| && changes[i].w == x && changes[i].h == y;
        assert IsFlip(changes[i], before, width, height);
      }
    }
    GridExtensionality(after, Successor(before, width, height), width, height);
  }

  /** The message `World.New` fails with. */
  const MismatchMessage: string := "width*height != cells"

  /** Counts the live cells of `cells` in one scan. */
  method CountLive(cells: seq<bool>) returns (n: nat)
    ensures n == Population(cells)
  {
    n := 0;
    for i := 0 to |cells|
      invariant n == Population(cells[..i])
    {
      assert cells[..i + 1][..i] == cells[..i];
      if cells[i] {
        n := n + 1;
      }
    }
    assert cells[..|cells|] == cells;
  }

  /** True when old cell (c', r') lands on new cell (c, r) under tiling, i.e. c' % newWidth == c and r' % newHeight == r. */
  predicate TilesOnto(c': nat, r': nat, newWidth: nat, newHeight: nat, c: nat, r: nat)
    requires newWidth > 0 && newHeight > 0
  {
    c' % newWidth == c && r' % newHeight == r
  }

  /**
    True when new cell (c, r) receives some live cell of the old
    `width * height` grid among those strictly before (w, h) in row-major order.
   */
  ghost predicate TiledBefore(cells: seq<bool>, width: nat, height: nat, newWidth: nat, newHeight: nat,
                              c: nat, r: nat, w: nat, h: nat)
    requires |cells| == width * height && newWidth > 0 && newHeight > 0
  {
    exists c': nat, r': nat :: c' < width && r' < height && RowMajorBefore(c', r', w, h)
                              && At(cells, width, height, c', r') && TilesOnto(c', r', newWidth, newHeight, c, r)
  }

  /** True when new cell (c, r) receives some live cell of the old grid. */
  ghost predicate Tiled(cells: seq<bool>, width: nat, height: nat, newWidth: nat, newHeight: nat, c: nat, r: nat)
    requires |cells| == width * height && newWidth > 0 && newHeight > 0
  {
    exists c': nat, r': nat :: c' < width && r' < height
                              && At(cells, width, height, c', r') && TilesOnto(c', r', newWidth, newHeight, c, r)
  }

  /**
    Builds the `newWidth * newHeight` grid onto which every live cell (c', r')
    of `cells` is mapped at (c' % newWidth, r' % newHeight).
   */
  method TileCells(cells: seq<bool>, width: nat, height: nat, newWidth: nat, newHeight: nat)
    returns (tiled: seq<bool>)
    requires |cells| == width * height && newWidth > 0 && newHeight > 0
    ensures |tiled| == newWidth * newHeight
    ensures forall c: nat, r: nat :: c < newWidth && r < newHeight ==>
              (At(tiled, newWidth, newHeight, c, r) <==> Tiled(cells, width, height, newWidth, newHeight, c, r))
  {
    tiled := seq(newWidth * newHeight, _ => false);
    forall c: nat, r: nat | c < newWidth && r < newHeight
      ensures !At(tiled, newWidth, newHeight, c, r) && !TiledBefore(cells, width, height, newWidth, newHeight, c, r, 0, 0)
    {
      IdxBound(c, r, newWidth, newHeight);
    }
    for h := 0 to height
      invariant |tiled| == newWidth * newHeight
      invariant forall c: nat, r: nat :: c < newWidth && r < newHeight ==>
                  (At(tiled, newWidth, newHeight, c, r) <==> TiledBefore(cells, width, height, newWidth, newHeight, c, r, 0, h))
    {
      for w := 0 to width
        invariant |tiled| == newWidth * newHeight
        invariant forall c: nat, r: nat :: c < newWidth && r < newHeight ==>
                    (At(tiled, newWidth, newHeight, c, r) <==> TiledBefore(cells, width, height, newWidth, newHeight, c, r, w, h))
      {
        ghost var prev := tiled;
        if At(cells, width, height, w, h) {
          tiled := Put(tiled, newWidth, newHeight, w % newWidth, h % newHeight, true);
        }
        forall c: nat, r: nat | c < newWidth && r < newHeight
          ensures At(tiled, newWidth, newHeight, c, r) <==> TiledBefore(cells, width, height, newWidth, newHeight, c, r, w + 1, h)
        {
          TiledStep(cells, width, height, newWidth, newHeight, c, r, w, h);
          if At(cells, width, height, w, h) {
            AtPut(prev, newWidth, newHeight, w % newWidth, h % newHeight, true, c, r);
          }
        }
      }
      forall c: nat, r: nat | c < newWidth && r < newHeight
        ensures TiledBefore(cells, width, height, newWidth, newHeight, c, r, width, h)
                == TiledBefore(cells, width, height, newWidth, newHeight, c, r, 0, h + 1)
      {
        TiledRowEnd(cells, width, height, newWidth, newHeight, c, r, h);
      }
    }
    forall c: nat, r: nat | c < newWidth && r < newHeight
      ensures TiledBefore(cells, width, height, newWidth, newHeight, c, r, 0, height)
              == Tiled(cells, width, height, newWidth, newHeight, c, r)
    {
    }
  }

  /** Moving past old cell (w, h) adds exactly that cell to the ones already tiled. */
  lemma TiledStep(cells: seq<bool>, width: nat, height: nat, newWidth: nat, newHeight: nat,
                  c: nat, r: nat, w: nat, h: nat)
    requires |cells| == width * height && newWidth > 0 && newHeight > 0 && w < width && h < height
    ensures TiledBefore(cells, width, height, newWidth, newHeight, c, r, w + 1, h)
            <==> (TiledBefore(cells, width, height, newWidth, newHeight, c, r, w, h)
                  || (At(cells, width, height, w, h) && TilesOnto(w, h, newWidth, newHeight, c, r)))
  {
    if TiledBefore(cells, width, height, newWidth, newHeight, c, r, w + 1, h) {
      var c': nat, r': nat :| c' < width && r' < height && RowMajorBefore(c', r', w + 1, h)
                              && At(cells, width, height, c', r') && TilesOnto(c', r', newWidth, newHeight, c, r);
      if c' != w || r' != h {
        assert RowMajorBefore(c', r', w, h);
      }
    }
  }

  /** The end of one row of the old grid is the start of the next. */
  lemma TiledRowEnd(cells: seq<bool>, width: nat, height: nat, newWidth: nat, newHeight: nat,
                    c: nat, r: nat, h: nat)
    requires |cells| == width * height && newWidth > 0 && newHeight > 0
    ensures TiledBefore(cells, width, height, newWidth, newHeight, c, r, width, h)
            == TiledBefore(cells, width, height, newWidth, newHeight, c, r, 0, h + 1)
  {
    if TiledBefore(cells, width, height, newWidth, newHeight, c, r, 0, h + 1) {
      var c': nat, r': nat :| c' < width && r' < height && RowMajorBefore(c', r', 0, h + 1)
                              && At(cells, width, height, c', r') && TilesOnto(c', r', newWidth, newHeight, c, r);
      assert RowMajorBefore(c', r', width, h);
    }
  }

  class World {
    var width: nat
    var height: nat
    var generation: nat  // the current generation of cells
    var alive: nat       // the current number of live cells
    var cells: seq<bool> // cell (x, y) is at `x + y*width`

    /** The cell store matches the dimensions and the cached count matches the cells. */
    ghost predicate Valid()
      reads this
    {
      |cells| == width * height && alive == Population(cells)
    }

    /** An all-dead grid of the given dimensions, at generation 0. */
    constructor Empty(width: nat, height: nat)
      ensures Valid()
      ensures this.width == width && this.height == height
      ensures generation == 0 && alive == 0
      ensures forall x: nat, y: nat :: x < width && y < height ==> !At(cells, width, height, x, y)
    {
      this.width := width;
      this.height := height;
      generation := 0;
      alive := 0;
      cells := seq(width * height, _ => false);
      new;
      PopulationZero(cells);
      forall x: nat, y: nat | x < width && y < height
        ensures !At(cells, width, height, x, y)
      {
        IdxBound(x, y, width, height);
      }
    }

    /** A grid over the given cells, at generation 0, whose live count is found by scanning them. */
    constructor FromCells(width: nat, height: nat, cells: seq<bool>)
      requires width * height == |cells|
      ensures Valid()
      ensures this.width == width && this.height == height && this.cells == cells
      ensures generation == 0
    {
      var n := CountLive(cells);
      this.width := width;
      this.height := height;
      this.cells := cells;
      generation := 0;
      alive := n;
    }

    /**
      Builds a world from a flat cell buffer, failing exactly when the buffer's
      length is not `width * height`.
     */
    static method New(width: nat, height: nat, cells: seq<bool>) returns (r: Result<World, string>)
      ensures r.Err? <==> width * height != |cells|
      ensures r.Err? ==> r.error == MismatchMessage
      ensures r.Ok? ==> fresh(r.value) && r.value.Valid()
                        && r.value.width == width && r.value.height == height
                        && r.value.cells == cells && r.value.generation == 0
                        && r.value.alive == Population(cells)
    {
      if width * height != |cells| {
        r := Err(MismatchMessage);
      } else {
        var world := new World.FromCells(width, height, cells);
        r := Ok(world);
      }
    }

    /** The state of cell (w, h). */
    function IsAlive(w: nat, h: nat): (live: bool)
      reads this
      requires Valid() && w < width && h < height
      ensures h * width + w < |cells| && live == cells[h * width + w]
    {
      IdxBound(w, h, width, height);
      At(cells, width, height, w, h)
    }

    /**
      Sets cell (w, h) to `b` and moves the live count by one. The cell must
      actually change state; both callers guarantee it.
     */
    method SetAlive(w: nat, h: nat, b: bool)
      requires Valid() && w < width && h < height
      requires IsAlive(w, h) != b
      modifies this
      ensures Valid()
      ensures width == old(width) && height == old(height) && generation == old(generation)
      ensures cells == Put(old(cells), width, height, w, h, b)
      ensures alive == if b then old(alive) + 1 else old(alive) - 1
    {
      IdxBound(w, h, width, height);
      PopulationUpdate(cells, Idx(w, h, width), b);
      cells := Put(cells, width, height, w, h, b);
      if b {
        alive := alive + 1;
      } else {
        alive := alive - 1;
      }
    }

    /**
      The state of cell (w, h) and the number of live cells among its eight
      toroidal neighbours, counted once per neighbour offset.
     */
    method CountLivingNeighbours(w: nat, h: nat) returns (isLive: bool, n: nat)
      requires Valid() && w < width && h < height
      ensures isLive == IsAlive(w, h)
      ensures n == Neighbours(cells, width, height, w, h) && n <= 8
    {
      n := 0;
      for i := 0 to |Offsets|
        invariant n == LiveAmong(cells, width, height, w, h, Offsets[..i])
      {
        var (dx, dy) := Offsets[i];
        var w1, h1 := Wrapped(w, dx, width), Wrapped(h, dy, height);
        assert Offsets[..i + 1][..i] == Offsets[..i];
        if IsAlive(w1, h1) {
          n := n + 1;
        }
      }
      assert Offsets[..|Offsets|] == Offsets;
      isLive := IsAlive(w, h);
    }

    /** Renders row `line`: one character per column, `#` for a live cell and `.` for a dead one. */
    method RenderLine(line: nat) returns (s: string)
      requires Valid() && line < height
      ensures |s| == width
      ensures forall i :: 0 <= i < width ==> s[i] == if IsAlive(i, line) then '#' else '.'
    {
      s := "";
      for i := 0 to width
        invariant |s| == i
        invariant forall j :: 0 <= j < i ==> s[j] == if IsAlive(j, line) then '#' else '.'
      {
        s := s + [if IsAlive(i, line) then '#' else '.'];
      }
    }

    /**
      Resizes the grid. Unchanged dimensions leave the world as it is; otherwise
      every live cell (c', r') is moved to (c' % newWidth, r' % newHeight) of an
      all-dead grid of the new size and the live count is recounted. The
      generation is kept.
     */
    method ExpandTo(newWidth: nat, newHeight: nat)
      requires Valid()
      requires (newWidth == width && newHeight == height) || (newWidth > 0 && newHeight > 0)
      modifies this
      ensures Valid()
      ensures width == newWidth && height == newHeight && generation == old(generation)
      ensures newWidth == old(width) && newHeight == old(height) ==> cells == old(cells) && alive == old(alive)
      ensures newWidth > 0 && newHeight > 0 ==>
                forall c: nat, r: nat :: c < newWidth && r < newHeight ==>
                  (At(cells, width, height, c, r) <==> Tiled(old(cells), old(width), old(height), newWidth, newHeight, c, r))
    {
      if newWidth == width && newHeight == height {
        forall c: nat, r: nat | c < newWidth && r < newHeight
          ensures At(cells, width, height, c, r) <==> Tiled(cells, width, height, newWidth, newHeight, c, r)
        {
          if Tiled(cells, width, height, newWidth, newHeight, c, r) {
            var c': nat, r': nat :| c' < width && r' < height
                                    && At(cells, width, height, c', r') && TilesOnto(c', r', newWidth, newHeight, c, r);
            ModUnique(c', 0, c', newWidth);
            ModUnique(r', 0, r', newHeight);
          } else {
            ModUnique(c, 0, c, newWidth);
            ModUnique(r, 0, r, newHeight);
            assert !(At(cells, width, height, c, r) && TilesOnto(c, r, newWidth, newHeight, c, r));
          }
        }
        return;
      }
      var ncells := TileCells(cells, width, height, newWidth, newHeight);
      width := newWidth;
      height := newHeight;
      cells := ncells;
      alive := CountLive(cells);
    }

    /**
      Advances one generation: collects every cell whose state flips from the
      unchanged grid, applies the flips, and increments the generation. Returns
      the flips in row-major order, each with its new state, as the per-cell
      notifications delivered after the update.
     */
    method AdvanceGeneration() returns (changes: seq<Change>)
      requires Valid()
      modifies this
      ensures Valid()
      ensures width == old(width) && height == old(height)
      ensures generation == old(generation) + 1
      ensures cells == Successor(old(cells), width, height)
      ensures InRowMajorOrder(changes)
      ensures forall i :: 0 <= i < |changes| ==> changes[i].w < width && changes[i].h < height && IsFlip(changes[i], old(cells), width, height)
      ensures forall x: nat, y: nat | x < width && y < height && At(old(cells), width, height, x, y) != At(cells, width, height, x, y) ::
                exists i :: 0 <= i < |changes| && changes[i].w == x && changes[i].h == y
    {
      ghost var snap := cells;
      changes := CollectChanges();
      for i := 0 to |changes|
        invariant Valid() && width == old(width) && height == old(height) && generation == old(generation)
        invariant AppliedUpTo(cells, snap, width, height, changes, i)
      {
        var c := changes[i];
        ApplyStep(cells, snap, width, height, changes, i);
        SetAlive(c.w, c.h, c.alive);
      }
      generation := generation + 1;
      FlipsApplied(snap, cells, width, height, changes);
    }

    /**
      Scans the grid row by row (h outer, w inner) without changing it and
      returns, in that order, exactly the cells whose state the Life rule flips,
      each with its new state.
     */
    method CollectChanges() returns (changes: seq<Change>)
      requires Valid()
      ensures InRowMajorOrder(changes)
      ensures forall i :: 0 <= i < |changes| ==> changes[i].w < width && changes[i].h < height && IsFlip(changes[i], cells, width, height)
      ensures forall x: nat, y: nat | x < width && y < height && NextAt(cells, width, height, x, y) != At(cells, width, height, x, y) ::
                exists i :: 0 <= i < |changes| && changes[i].w == x && changes[i].h == y
    {
      changes := [];
      for h := 0 to height
        invariant ScannedUpTo(changes, cells, width, height, 0, h)
      {
        changes := CollectRow(h, changes);
      }
    }

    /** Extends `found`, the flips of the rows above row `h`, with the flips of row `h` in column order. */
    method CollectRow(h: nat, found: seq<Change>) returns (changes: seq<Change>)
      requires Valid() && h < height
      requires ScannedUpTo(found, cells, width, height, 0, h)
      ensures ScannedUpTo(changes, cells, width, height, 0, h + 1)
    {
      changes := found;
      for w := 0 to width
        invariant ScannedUpTo(changes, cells, width, height, w, h)
      {
        var isLive, n := CountLivingNeighbours(w, h);
        ScanStep(changes, cells, width, height, w, h);
        ghost var flip := FlipOf(cells, width, height, w, h);
        assert NextAt(cells, width, height, w, h) == NextState(isLive, n);
        if isLive && (n < 2 || n > 3) {
          assert flip == [Change(w, h, false)];
          changes := changes + [Change(w, h, false)];
        } else if !isLive && n == 3 {
          assert flip == [Change(w, h, true)];
          changes := changes + [Change(w, h, true)];
        } else {
          assert flip == [];
          assert changes + flip == changes;
        }
      }
      ScanRowEnd(changes, cells, width, height, h);
    }
  }

  /**
    `cur` is `snap` with the first `i` flips of `changes` applied: those cells
    hold their new state, the cells of the remaining flips still hold their old
    one, and every cell holds either its old or its next state.
   */
  ghost predicate AppliedUpTo(cur: seq<bool>, snap: seq<bool>, width: nat, height: nat, changes: seq<Change>, i: nat)
    requires |cur| == width * height && |snap| == width * height
    requires forall j :: 0 <= j < |changes| ==> changes[j].w < width && changes[j].h < height
  {
    && (forall j :: i <= j < |changes| ==>
          At(cur, width, height, changes[j].w, changes[j].h) == At(snap, width, height, changes[j].w, changes[j].h))
    && (forall j :: 0 <= j < i && j < |changes| ==> At(cur, width, height, changes[j].w, changes[j].h) == changes[j].alive)
    && (forall x: nat, y: nat :: x < width && y < height ==>
          At(cur, width, height, x, y) == At(snap, width, height, x, y)
          || At(cur, width, height, x, y) == NextAt(snap, width, height, x, y))
  }

  /**
    Applying flip `i` of a row-major list of flips of `snap` to a grid that
    has the first `i` applied changes the state of that cell, and yields the
    grid with the first `i + 1` applied.
   */
  lemma ApplyStep(cur: seq<bool>, snap: seq<bool>, width: nat, height: nat, changes: seq<Change>, i: nat)
    requires |cur| == width * height && |snap| == width * height && i < |changes|
    requires InRowMajorOrder(changes)
    requires forall j :: 0 <= j < |changes| ==> changes[j].w < width && changes[j].h < height && IsFlip(changes[j], snap, width, height)
    requires AppliedUpTo(cur, snap, width, height, changes, i)
    ensures At(cur, width, height, changes[i].w, changes[i].h) != changes[i].alive
    ensures AppliedUpTo(Put(cur, width, height, changes[i].w, changes[i].h, changes[i].alive), snap, width, height, changes, i + 1)
  {
    var c := changes[i];
    assert IsFlip(c, snap, width, height);
    var next := Put(cur, width, height, c.w, c.h, c.alive);
    forall x: nat, y: nat | x < width && y < height
      ensures At(next, width, height, x, y) == if x == c.w && y == c.h then c.alive else At(cur, width, height, x, y)
    {
      AtPut(cur, width, height, c.w, c.h, c.alive, x, y);
    }
    forall j | 0 <= j < |changes| && j != i
      ensures changes[j].w != c.w || changes[j].h != c.h
    {
      if j < i {
        assert RowMajorBefore(changes[j].w, changes[j].h, c.w, c.h);
      } else {
        assert RowMajorBefore(c.w, c.h, changes[j].w, changes[j].h);
      }
    }
  }

  /**
    `changes` lists, in row-major order, exactly the flips of the cells before
    (w, h) in row-major order, each with its new state.
   */
  ghost predicate ScannedUpTo(changes: seq<Change>, cells: seq<bool>, width: nat, height: nat, w: nat, h: nat)
    requires |cells| == width * height
  {
    && InRowMajorOrder(changes)
    && (forall i :: 0 <= i < |changes| ==>
          changes[i].w < width && changes[i].h < height && IsFlip(changes[i], cells, width, height)
          && RowMajorBefore(changes[i].w, changes[i].h, w, h))
    && (forall x: nat, y: nat | x < width && y < height && RowMajorBefore(x, y, w, h)
          && NextAt(cells, width, height, x, y) != At(cells, width, height, x, y) ::
          exists i :: 0 <= i < |changes| && changes[i].w == x && changes[i].h == y)
  }

  /** The flips of cell (w, h): its change when the Life rule flips it, and nothing otherwise. */
  function FlipOf(cells: seq<bool>, width: nat, height: nat, w: nat, h: nat): (r: seq<Change>)
    requires |cells| == width * height && w < width && h < height
    ensures |r| <= 1
    ensures |r| == 1 <==> NextAt(cells, width, height, w, h) != At(cells, width, height, w, h)
    ensures |r| == 1 ==> r[0].w == w && r[0].h == h && r[0].alive == NextAt(cells, width, height, w, h)
  {
    if NextAt(cells, width, height, w, h) != At(cells, width, height, w, h)
    then [Change(w, h, NextAt(cells, width, height, w, h))]
    else []
  }

  /** Visiting cell (w, h) appends exactly its flip, if any, to the scan so far. */
  lemma ScanStep(changes: seq<Change>, cells: seq<bool>, width: nat, height: nat, w: nat, h: nat)
    requires |cells| == width * height && w < width && h < height
    requires ScannedUpTo(changes, cells, width, height, w, h)
    ensures ScannedUpTo(changes + FlipOf(cells, width, height, w, h), cells, width, height, w + 1, h)
  {
    var flip := FlipOf(cells, width, height, w, h);
    ScanStepOrder(changes, flip, w, h);
    ScanStepEntries(changes, flip, cells, width, height, w, h);
    ScanStepComplete(changes, flip, cells, width, height, w, h);
  }

  lemma ScanStepOrder(changes: seq<Change>, flip: seq<Change>, w: nat, h: nat)
    requires InRowMajorOrder(changes) && |flip| <= 1
    requires forall i :: 0 <= i < |changes| ==> RowMajorBefore(changes[i].w, changes[i].h, w, h)
    requires forall i :: 0 <= i < |flip| ==> flip[i].w == w && flip[i].h == h
    ensures InRowMajorOrder(changes + flip)
  {
    var next := changes + flip;
    forall i, j | 0 <= i < j < |next|
      ensures RowMajorBefore(next[i].w, next[i].h, next[j].w, next[j].h)
    {
      assert next[i] == changes[i];
      if j < |changes| {
        assert next[j] == changes[j];
      }
    }
  }

  lemma ScanStepEntries(changes: seq<Change>, flip: seq<Change>, cells: seq<bool>, width: nat, height: nat, w: nat, h: nat)
    requires |cells| == width * height && w < width && h < height
    requires forall i :: 0 <= i < |changes| ==>
               changes[i].w < width && changes[i].h < height && IsFlip(changes[i], cells, width, height)
               && RowMajorBefore(changes[i].w, changes[i].h, w, h)
    requires flip == FlipOf(cells, width, height, w, h)
    ensures forall i :: 0 <= i < |changes + flip| ==>
              (changes + flip)[i].w < width && (changes + flip)[i].h < height && IsFlip((changes + flip)[i], cells, width, height)
              && RowMajorBefore((changes + flip)[i].w, (changes + flip)[i].h, w + 1, h)
  {
    var next := changes + flip;
    forall i | 0 <= i < |next|
      ensures next[i].w < width && next[i].h < height && IsFlip(next[i], cells, width, height)
              && RowMajorBefore(next[i].w, next[i].h, w + 1, h)
    {
      if i < |changes| {
        assert next[i] == changes[i];
      } else {
        assert next[i] == flip[0];
      }
    }
  }

  lemma ScanStepComplete(changes: seq<Change>, flip: seq<Change>, cells: seq<bool>, width: nat, height: nat, w: nat, h: nat)
    requires |cells| == width * height && w < width && h < height
    requires forall x: nat, y: nat | x < width && y < height && RowMajorBefore(x, y, w, h)
               && NextAt(cells, width, height, x, y) != At(cells, width, height, x, y) ::
               exists i :: 0 <= i < |changes| && changes[i].w == x && changes[i].h == y
    requires flip == FlipOf(cells, width, height, w, h)
    ensures forall x: nat, y: nat | x < width && y < height && RowMajorBefore(x, y, w + 1, h)
              && NextAt(cells, width, height, x, y) != At(cells, width, height, x, y) ::
              exists i :: 0 <= i < |changes + flip| && (changes + flip)[i].w == x && (changes + flip)[i].h == y
  {
    var next := changes + flip;
    forall x: nat, y: nat | x < width && y < height && RowMajorBefore(x, y, w + 1, h)
      && NextAt(cells, width, height, x, y) != At(cells, width, height, x, y)
      ensures exists i :: 0 <= i < |next| && next[i].w == x && next[i].h == y
    {
      if x == w && y == h {
        assert next[|changes|].w == x && next[|changes|].h == y;
      } else {
        assert RowMajorBefore(x, y, w, h);
        var i :| 0 <= i < |changes| && changes[i].w == x && changes[i].h == y;
        assert next[i] == changes[i];
      }
    }
  }

  /** Having scanned all of row h is having scanned up to the start of row h + 1. */
  lemma ScanRowEnd(changes: seq<Change>, cells: seq<bool>, width: nat, height: nat, h: nat)
    requires |cells| == width * height
    requires ScannedUpTo(changes, cells, width, height, width, h)
    ensures ScannedUpTo(changes, cells, width, height, 0, h + 1)
  {
  }
}
