/**
  The pattern parser: text in which `O` marks a live cell and `.` a dead one,
  row by row, after any number of leading comment lines that start with `!`.
  The text is taken as its sequence of lines.
 */
module Parser {

  import opened Life
  import opened Results
  import opened Engine

  /** A parse failure at a 1-based row and column. */
  datatype Error = Error(row: nat, col: nat, reason: string)

  /** A comment line: its first character is `!`. */
  predicate IsComment(line: string)
  {
    |line| > 0 && line[0] == '!'
  }

  /** The characters a pattern row may hold. */
  predicate IsCellChar(c: char)
  {
    c == 'O' || c == '.'
  }

  /** The number of leading comment lines; only those are skipped. */
  function HeaderLength(lines: seq<string>): (k: nat)
    ensures k <= |lines|
    ensures forall i :: 0 <= i < k ==> IsComment(lines[i])
    ensures k < |lines| ==> !IsComment(lines[k])
  {
    if lines == [] || !IsComment(lines[0]) then 0 else 1 + HeaderLength(lines[1..])
  }

  /** The pattern rows: the lines after the leading comments. */
  function Body(lines: seq<string>): seq<string>
  {
    lines[HeaderLength(lines)..]
  }

  /**
    The pattern rows are what remains once the leading comments are cut off:
    a suffix of the text, every line before it a comment, and its own first
    line not one.
   */
  lemma BodyIsSuffix(lines: seq<string>)
    ensures var body := Body(lines);
            && |body| <= |lines| && lines == lines[..|lines| - |body|] + body
            && (forall i :: 0 <= i < |lines| - |body| ==> IsComment(lines[i]))
            && (body == [] || !IsComment(body[0]))
  {
    var k := HeaderLength(lines);
    assert lines == lines[..k] + lines[k..];
  }

  /** One more than the index of the last `O` of `line`, or 0 when it has none. */
  function LastO(line: string): (r: nat)
    ensures r <= |line|
    ensures r > 0 ==> line[r - 1] == 'O'
    ensures forall i :: r <= i < |line| ==> line[i] != 'O'
  {
    if line == [] then 0
    else if line[|line| - 1] == 'O' then |line|
    else LastO(line[..|line| - 1])
  }

  function Max(a: nat, b: nat): nat
  {
    if a < b then b else a
  }

  /**
    Folds rows `i..` of `body` into `acc`, taking the larger width and the
    larger `1 + row index` at each row.
   */
  function FoldDimension(body: seq<string>, i: nat, acc: (nat, nat)): (r: (nat, nat))
    requires i <= |body|
    decreases |body| - i
    ensures r.0 >= acc.0
    ensures forall j :: i <= j < |body| ==> LastO(body[j]) <= r.0
    ensures r.0 == acc.0 || exists j :: i <= j < |body| && r.0 == LastO(body[j])
    ensures r.1 == if i < |body| then Max(acc.1, |body|) else acc.1
  {
    if i == |body| then acc
    else FoldDimension(body, i + 1, (Max(acc.0, LastO(body[i])), Max(acc.1, i + 1)))
  }

  /**
    The `(width, height)` of a pattern: the width is the largest `1 + index of
    the last O` over the rows (0 without any `O`), the height the number of rows.
   */
  function CellsDimension(lines: seq<string>): (r: (nat, nat))
    ensures r.1 == |Body(lines)|
    ensures forall j :: 0 <= j < |Body(lines)| ==> LastO(Body(lines)[j]) <= r.0
    ensures r.0 == 0 || exists j :: 0 <= j < |Body(lines)| && r.0 == LastO(Body(lines)[j])
    ensures forall l, c :: 0 <= l < |Body(lines)| && 0 <= c < |Body(lines)[l]| && Body(lines)[l][c] == 'O' ==> c < r.0
  {
    var body := Body(lines);
    var r := FoldDimension(body, 0, (0, 0));
    assert forall l, c :: 0 <= l < |body| && 0 <= c < |body[l]| && body[l][c] == 'O' ==> c < LastO(body[l]) <= r.0;
    r
  }

  /** Cell (x, y) of the padded grid corresponds to an `O` of the pattern, shifted by one row and column. */
  predicate IsO(body: seq<string>, x: nat, y: nat)
  {
    1 <= y <= |body| && 1 <= x <= |body[y - 1]| && body[y - 1][x - 1] == 'O'
  }

  /** The number of `O` characters of `line`. */
  function CountO(line: string): (n: nat)
    ensures n <= |line|
    ensures n == 0 <==> forall i :: 0 <= i < |line| ==> line[i] != 'O'
  {
    if line == [] then 0
    else
      var init := line[..|line| - 1];
      assert forall i :: 0 <= i < |init| ==> init[i] == line[i];
      CountO(init) + (if line[|line| - 1] == 'O' then 1 else 0)
  }

  /** The number of `O` characters of all `rows`. */
  function TotalO(rows: seq<string>): nat
  {
    if rows == [] then 0 else TotalO(rows[..|rows| - 1]) + CountO(rows[|rows| - 1])
  }

  /** The rows hold no `O` exactly when their total count of `O`s is zero. */
  lemma {:induction false} TotalOZero(rows: seq<string>)
    ensures TotalO(rows) == 0 <==> forall l, c :: 0 <= l < |rows| && 0 <= c < |rows[l]| ==> rows[l][c] != 'O'
  {
    if rows != [] {
      var init := rows[..|rows| - 1];
      TotalOZero(init);
      assert forall l :: 0 <= l < |init| ==> init[l] == rows[l];
    }
  }

  /** Every character of the rows before row `l` is `O` or `.`. */
  predicate RowsValid(body: seq<string>, l: nat)
  {
    forall l', c' :: 0 <= l' < l && l' < |body| && 0 <= c' < |body[l']| ==> IsCellChar(body[l'][c'])
  }

  /** Exactly the cells of the `O`s of the rows before row `l` are live, shifted by one row and column. */
  ghost predicate Marked(cells: seq<bool>, width: nat, height: nat, body: seq<string>, l: nat)
    requires |cells| == width * height
  {
    forall x: nat, y: nat :: x < width && y < height ==> At(cells, width, height, x, y) == (IsO(body, x, y) && y <= l)
  }

  /** Exactly the cells of the `O`s before row `l`, and of those of row `l` before column `c`, are live. */
  ghost predicate MarkedUpTo(cells: seq<bool>, width: nat, height: nat, body: seq<string>, l: nat, c: nat)
    requires |cells| == width * height
  {
    forall x: nat, y: nat :: x < width && y < height ==>
      At(cells, width, height, x, y) == (IsO(body, x, y) && (y <= l || (y == l + 1 && x <= c)))
  }

  /** Row `l`, column `c` holds the first character in reading order that is neither `O` nor `.`. */
  predicate FirstInvalid(body: seq<string>, l: nat, c: nat)
  {
    && l < |body| && c < |body[l]| && !IsCellChar(body[l][c])
    && (forall l', c' :: 0 <= l' < l && 0 <= c' < |body[l']| ==> IsCellChar(body[l'][c']))
    && (forall c' :: 0 <= c' < c ==> IsCellChar(body[l][c']))
  }

  /**
    Parses a pattern into a world of its dimensions plus a one-cell dead border
    on every side, with each `O` at row `l`, column `c` of the pattern made live
    at (c + 1, l + 1). Fails at the first character that is neither `O` nor `.`,
    reporting its 1-based row (counted from the first pattern row) and column.
   */
  method CellsParse(lines: seq<string>) returns (r: Result<World, Error>)
    ensures r.Err? <==> exists l, c :: 0 <= l < |Body(lines)| && 0 <= c < |Body(lines)[l]| && !IsCellChar(Body(lines)[l][c])
    ensures r.Err? ==>
              exists l: nat, c: nat :: (FirstInvalid(Body(lines), l, c)
                                        && r.error == Error(l + 1, c + 1, "Invalid character: " + [Body(lines)[l][c]]))
    ensures r.Ok? ==> var world := r.value;
                      && fresh(world)
                      && world.Valid()
                      && world.width == CellsDimension(lines).0 + 2 && world.height == CellsDimension(lines).1 + 2
                      && world.generation == 0
                      && (forall x: nat, y: nat :: x < world.width && y < world.height ==>
                            At(world.cells, world.width, world.height, x, y) == IsO(Body(lines), x, y))
                      && world.alive == TotalO(Body(lines))
  {
    var dim := CellsDimension(lines);
    var world := new World.Empty(dim.0 + 2, dim.1 + 2);
    var body := Body(lines);
    var l := 0;
    while l < |body|
      invariant l <= |body|
      invariant fresh(world)
      invariant world.Valid() && world.width == dim.0 + 2 && world.height == dim.1 + 2 && world.generation == 0
      invariant RowsValid(body, l)
      invariant Marked(world.cells, world.width, world.height, body, l)
      invariant world.alive == TotalO(body[..l])
    {
      var bad := ParseRow(world, body, l);
      if bad.Some? {
        var c := bad.value;
        assert FirstInvalid(body, l, c);
        return Err(Error(l + 1, c + 1, "Invalid character: " + [body[l][c]]));
      }
      assert body[..l + 1][..l] == body[..l];
      l := l + 1;
    }
    assert body[..|body|] == body;
    return Ok(world);
  }

  /**
    Marks live, at (c + 1, l + 1), every `O` of pattern row `l`, in column
    order, and stops at the first character that is neither `O` nor `.`,
    returning its column.
   */
  method ParseRow(world: World, body: seq<string>, l: nat) returns (bad: Option<nat>)
    requires l < |body| && l + 1 < world.height && world.Valid()
    requires forall c :: 0 <= c < |body[l]| && body[l][c] == 'O' ==> c + 1 < world.width
    requires RowsValid(body, l)
    requires Marked(world.cells, world.width, world.height, body, l)
    modifies world
    ensures world.Valid()
    ensures world.width == old(world.width) && world.height == old(world.height) && world.generation == old(world.generation)
    ensures bad.Some? ==> bad.value < |body[l]| && !IsCellChar(body[l][bad.value])
                          && forall c :: 0 <= c < bad.value ==> IsCellChar(body[l][c])
    ensures bad.None? ==> RowsValid(body, l + 1)
    ensures bad.None? ==> Marked(world.cells, world.width, world.height, body, l + 1)
    ensures bad.None? ==> world.alive == old(world.alive) + CountO(body[l])
  {
    var line := body[l];
    for c := 0 to |line|
      invariant world.Valid()
      invariant world.width == old(world.width) && world.height == old(world.height) && world.generation == old(world.generation)
      invariant forall c' :: 0 <= c' < c ==> IsCellChar(line[c'])
      invariant MarkedUpTo(world.cells, world.width, world.height, body, l, c)
      invariant world.alive == old(world.alive) + CountO(line[..c])
    {
      assert line[..c + 1][..c] == line[..c];
      match line[c]
      case 'O' =>
        ghost var prev := world.cells;
        world.SetAlive(c + 1, l + 1, true);
        forall x: nat, y: nat | x < world.width && y < world.height
          ensures At(world.cells, world.width, world.height, x, y) == (IsO(body, x, y) && (y <= l || (y == l + 1 && x <= c + 1)))
        {
          AtPut(prev, world.width, world.height, c + 1, l + 1, true, x, y);
        }
      case '.' =>
      case _ =>
        return Some(c);
    }
    assert line[..|line|] == line;
    return None;
  }

  /**
    A line starting with `!` after the first pattern row is not a comment to
    the parser but a row holding an invalid character.
   */
  lemma LateCommentIsInvalid(lines: seq<string>, j: nat)
    requires HeaderLength(lines) <= j < |lines| && IsComment(lines[j])
    ensures exists l, c :: 0 <= l < |Body(lines)| && 0 <= c < |Body(lines)[l]| && !IsCellChar(Body(lines)[l][c])
  {
    var l := j - HeaderLength(lines);
    assert Body(lines)[l] == lines[j];
    assert !IsCellChar(Body(lines)[l][0]);
  }

  /** The dimensions of an empty text, of a comment alone, and of a 7x5 pattern under a comment. */
  lemma CellsDimensionExamples()
    ensures CellsDimension([]) == (0, 0)
    ensures CellsDimension(["!only a comment"]) == (0, 0)
    ensures CellsDimension(["!7x5 world", "....O", "..O", "...O..O", ".O", "O"]) == (7, 5)
  {
    assert HeaderLength([]) == 0;
    assert HeaderLength(["!only a comment"]) == 1 + HeaderLength([]);
    var lines := ["!7x5 world", "....O", "..O", "...O..O", ".O", "O"];
    var body := ["....O", "..O", "...O..O", ".O", "O"];
    assert lines[1..][0] == "....O";
    assert HeaderLength(lines) == 1;
    assert Body(lines) == body;
    assert LastO(body[0]) == 5 && LastO(body[1]) == 3 && LastO(body[2]) == 7;
    assert LastO(body[3]) == 2 && LastO(body[4]) == 1;
    calc {
      FoldDimension(body, 0, (0, 0));
      FoldDimension(body, 1, (5, 1));
      FoldDimension(body, 2, (5, 2));
      FoldDimension(body, 3, (7, 3));
      FoldDimension(body, 4, (7, 4));
      FoldDimension(body, 5, (7, 5));
      (7, 5);
    }
  }

}
