/** Mazes and headings (aoc2025/src/maze.rs): a grid with a start position
    taken from a marker character, and the four directions of travel with
    their quarter turns. */
module Mazes {
  import opened Wrappers
  import opened Vectors
  import opened Matrices

  datatype Maze = Maze(matrix: Matrix, start: Vec2)

  datatype MazeError = NoStart

  /** `str::find` for one character: the first index holding c. */
  function FindChar(row: seq<char>, c: char): (r: Option<nat>)
    ensures r.Some? <==> c in row
    ensures r.Some? ==> r.value < |row| && row[r.value] == c && c !in row[..r.value]
  {
    if |row| == 0 then None
    else if row[0] == c then Some(0)
    else
      match FindChar(row[1..], c)
      case None => None
      case Some(i) =>
        assert row[..i + 1] == [row[0]] + row[1..][..i];
        Some(i + 1)
  }

  /** The first row, from index y on, holding c. */
  function FirstRowWith(data: seq<seq<char>>, c: char, y: nat): (r: Option<nat>)
    requires y <= |data|
    ensures r.Some? ==> y <= r.value < |data| && c in data[r.value]
    ensures forall k :: y <= k < |data| && (r.None? || k < r.value) ==> c !in data[k]
    decreases |data| - y
  {
    if y == |data| then None
    else if c in data[y] then Some(y)
    else FirstRowWith(data, c, y + 1)
  }

  /** `make_maze`: the start is the first occurrence of `startChar` in
      row-major order, and its cell becomes open floor ('.'); a grid without
      the character panics. */
  function MakeMaze(matrix: Matrix, startChar: char): (r: Result<Maze, MazeError>)
    requires Valid(matrix)
    ensures r.Success? <==> Occurs(matrix, startChar)
    ensures r.Success? ==> var s := r.value.start;
      && Contains(matrix, s) && At(matrix, s) == startChar
      && (forall p :: Contains(matrix, p) && At(matrix, p) == startChar ==> !Precedes(p, s))
      && Valid(r.value.matrix)
      && forall q :: Get(r.value.matrix, q) == if q == s then Some('.') else Get(matrix, q)
  {
    match FirstRowWith(matrix.data, startChar, 0)
    case None =>
      assert !Occurs(matrix, startChar) by {
        forall p | Contains(matrix, p) ensures At(matrix, p) != startChar {
          assert startChar !in matrix.data[p.y];
        }
      }
      Failure(NoStart)
    case Some(y) =>
      var x := FindChar(matrix.data[y], startChar).value;
      var start := Vec2(x, y);
      assert Contains(matrix, start);
      assert forall p :: Contains(matrix, p) && At(matrix, p) == startChar ==> !Precedes(p, start) by {
        forall p | Contains(matrix, p) && At(matrix, p) == startChar ensures !Precedes(p, start) {
          assert startChar in matrix.data[p.y];
        }
      }
      forall q ensures Get(Put(matrix, start, '.').value, q) == if q == start then Some('.') else Get(matrix, q) {
        GetAfterPut(matrix, start, '.', q);
      }
      Success(Maze(Put(matrix, start, '.').value, start))
  }

  /** Headings; y grows downwards. */
  datatype Direction = Up | Right | Down | Left

  /** `turn_cw`. */
  function TurnCw(d: Direction): Direction {
    match d
    case Up => Right
    case Right => Down
    case Down => Left
    case Left => Up
  }

  /** `turn_ccw`. */
  function TurnCcw(d: Direction): Direction {
    match d
    case Up => Left
    case Left => Down
    case Down => Right
    case Right => Up
  }

  /** The turns undo each other, and four turns the same way are no turn. */
  lemma TurnsInverse(d: Direction)
    ensures TurnCcw(TurnCw(d)) == d && TurnCw(TurnCcw(d)) == d
    ensures TurnCw(TurnCw(TurnCw(TurnCw(d)))) == d
    ensures TurnCcw(TurnCcw(TurnCcw(TurnCcw(d)))) == d
  {
  }

  /** `dir`: the unit step of a heading. */
  function Dir(d: Direction): (r: Vec2)
    ensures LenSq(r) == 1
    ensures r.x == 0 || r.y == 0
  {
    match d
    case Up => Vec2(0, -1)
    case Right => Vec2(1, 0)
    case Down => Vec2(0, 1)
    case Left => Vec2(-1, 0)
  }

  /** Turning the heading turns its step by a quarter turn. */
  lemma DirTurns(d: Direction)
    ensures Dir(TurnCw(d)) == RotCw(Dir(d))
    ensures Dir(TurnCcw(d)) == RotCcw(Dir(d))
  {
  }
}
