/** Character grids (aoc2025/src/matrix.rs): a width, a height and one row
    of characters per line. Rows are modelled as sequences of characters
    and a column index counts characters; the source indexes bytes, which is
    the same for the ASCII inputs the grids hold. */
module Matrices {
  import opened Wrappers
  import opened Vectors

  datatype Matrix = Matrix(width: nat, height: nat, data: seq<seq<char>>)

  datatype MatrixError =
    | OutOfBounds(pos: Vec2)
    | NotADigit(c: char)
    | LineLength(idx: nat, len: nat, expected: nat)
    | MissingMarks
    | NotSingle(c: char)

  /** Every constructor of this file builds a matrix with `height` rows of
      `width` characters each; reads and writes rely on it. */
  predicate Valid(m: Matrix) {
    && |m.data| == m.height
    && forall y :: 0 <= y < |m.data| ==> |m.data[y]| == m.width
  }

  /** `contains`: the position lies inside the grid. */
  predicate Contains(m: Matrix, pos: Vec2) {
    !(pos.x < 0 || pos.y < 0) && !(pos.x >= m.width || pos.y >= m.height)
  }

  /** `contains_row`. */
  predicate ContainsRow(m: Matrix, row: int) {
    !(row < 0) && !(row >= m.height)
  }

  /** The character at an inside position. */
  function At(m: Matrix, pos: Vec2): char
    requires Valid(m) && Contains(m, pos)
  {
    m.data[pos.y][pos.x]
  }

  /** `get`: the character at pos, None exactly outside the grid. */
  function Get(m: Matrix, pos: Vec2): (r: Option<char>)
    requires Valid(m)
    ensures r.None? <==> pos.x < 0 || pos.y < 0 || pos.x >= m.width || pos.y >= m.height
    ensures r.Some? ==> r.value == m.data[pos.y][pos.x]
  {
    if !Contains(m, pos) then None else Some(m.data[pos.y][pos.x])
  }

  /** `get_row`: the whole row, None exactly for rows outside the grid. */
  function GetRow(m: Matrix, row: int): (r: Option<seq<char>>)
    requires Valid(m)
    ensures r.None? <==> row < 0 || row >= m.height
    ensures r.Some? ==> (|r.value| == m.width
      && forall x :: 0 <= x < m.width ==> Get(m, Vec2(x, row)) == Some(r.value[x]))
  {
    if !ContainsRow(m, row) then None else Some(m.data[row])
  }

  predicate IsDigit(c: char) {
    '0' <= c <= '9'
  }

  function DigitValue(c: char): (d: int)
    requires IsDigit(c)
    ensures 0 <= d <= 9
  {
    c as int - '0' as int
  }

  /** `get_int`: the digit at pos; a character that is not a digit makes
      the source's `unwrap` panic. */
  function GetInt(m: Matrix, pos: Vec2): (r: Result<Option<int>, MatrixError>)
    requires Valid(m)
    ensures r.Success? && r.value.None? <==> Get(m, pos).None?
    ensures r.Failure? <==> Get(m, pos).Some? && !IsDigit(Get(m, pos).value)
    ensures r.Success? && r.value.Some? ==> 0 <= r.value.value <= 9
  {
    match Get(m, pos)
    case None => Success(None)
    case Some(c) => if IsDigit(c) then Success(Some(DigitValue(c))) else Failure(NotADigit(c))
  }

  /** The digits of a row, or the first character that is not one. */
  function Digits(line: seq<char>): (r: Result<seq<int>, MatrixError>)
    ensures r.Success? <==> forall i :: 0 <= i < |line| ==> IsDigit(line[i])
    ensures r.Success? ==> (|r.value| == |line|
      && forall i :: 0 <= i < |line| ==> r.value[i] == DigitValue(line[i]))
  {
    if |line| == 0 then Success([])
    else if !IsDigit(line[0]) then Failure(NotADigit(line[0]))
    else
      var rest :- Digits(line[1..]);
      Success([DigitValue(line[0])] + rest)
  }

  /** `get_int_row`: the row read as digits; a non-digit panics. */
  function GetIntRow(m: Matrix, row: int): (r: Result<Option<seq<int>>, MatrixError>)
    requires Valid(m)
    ensures r.Success? && r.value.None? <==> row < 0 || row >= m.height
    ensures r.Failure? <==> 0 <= row < m.height && exists x :: 0 <= x < m.width && !IsDigit(m.data[row][x])
    ensures r.Success? && r.value.Some? ==> (|r.value.value| == m.width
      && (forall x :: 0 <= x < m.width ==> IsDigit(m.data[row][x]) && r.value.value[x] == DigitValue(m.data[row][x]))
      && forall x :: 0 <= x < m.width ==> GetInt(m, Vec2(x, row)) == Success(Some(r.value.value[x])))
  {
    match GetRow(m, row)
    case None => Success(None)
    case Some(line) =>
      var ds :- Digits(line);
      Success(Some(ds))
  }

  /** `put`: writes c at pos; a position outside the grid panics. */
  function Put(m: Matrix, pos: Vec2, c: char): (r: Result<Matrix, MatrixError>)
    requires Valid(m)
    ensures r.Success? <==> Contains(m, pos)
    ensures r.Failure? ==> r.error == OutOfBounds(pos)
    ensures r.Success? ==> Valid(r.value) && r.value.width == m.width && r.value.height == m.height
  {
    if !Contains(m, pos) then Failure(OutOfBounds(pos))
    else
      var row := m.data[pos.y];
      Success(Matrix(m.width, m.height, m.data[pos.y := row[pos.x := c]]))
  }

  /** After a `put`, pos holds c and every other position is unchanged. */
  lemma GetAfterPut(m: Matrix, pos: Vec2, c: char, q: Vec2)
    requires Valid(m) && Contains(m, pos)
    ensures Get(Put(m, pos, c).value, q) == if q == pos then Some(c) else Get(m, q)
  {
  }

  /** The last of two writes to the same place wins; writes to different
      places commute. */
  lemma PutPut(m: Matrix, p: Vec2, q: Vec2, c: char, d: char)
    requires Valid(m) && Contains(m, p) && Contains(m, q)
    ensures p == q ==> Put(Put(m, p, c).value, q, d) == Put(m, q, d)
    ensures p != q ==> Put(Put(m, p, c).value, q, d) == Put(Put(m, q, d).value, p, c)
  {
    var a := Put(Put(m, p, c).value, q, d).value;
    var b := if p == q then Put(m, q, d).value else Put(Put(m, q, d).value, p, c).value;
    assert a.data == b.data by {
      forall y | 0 <= y < m.height ensures a.data[y] == b.data[y] {
      }
    }
  }

  /** The cell `new` puts at (x, y): the wall character on the border when
      walls are asked for, the fill character everywhere else. */
  function NewCell(width: nat, height: nat, fill: char, walls: Option<char>, x: int, y: int): char {
    if walls.Some? && (x == 0 || x == width - 1 || y == 0 || y == height - 1) then walls.value else fill
  }

  /** (x, y) comes before (cx, cy) in row-major order. */
  predicate Before(x: int, y: int, cx: int, cy: int) {
    y < cy || (y == cy && x < cx)
  }

  /** The grid after the loop of `new` has visited every cell before
      (cx, cy). */
  predicate FilledUpTo(m: Matrix, fill: char, walls: Option<char>, cx: int, cy: int)
    requires Valid(m)
  {
    forall y, x :: 0 <= y < m.height && 0 <= x < m.width ==>
      m.data[y][x] == (if Before(x, y, cx, cy) then NewCell(m.width, m.height, fill, walls, x, y) else fill)
  }

  /** `new`: a width x height grid of fill, with the border overwritten by
      the wall character when one is given. */
  method New(width: nat, height: nat, fill: char, walls: Option<char>) returns (m: Matrix)
    ensures Valid(m) && m.width == width && m.height == height
    ensures forall p :: Contains(m, p) ==> Get(m, p) == Some(NewCell(width, height, fill, walls, p.x, p.y))
  {
    m := Matrix(width, height, seq(height, _ => seq(width, _ => fill)));
    if walls.Some? {
      var wall := walls.value;
      var y := 0;
      while y < height
        invariant 0 <= y <= height
        invariant Valid(m) && m.width == width && m.height == height
        invariant FilledUpTo(m, fill, walls, 0, y)
      {
        var x := 0;
        while x < width
          invariant 0 <= x <= width
          invariant Valid(m) && m.width == width && m.height == height
          invariant FilledUpTo(m, fill, walls, x, y)
        {
          if x == 0 || x == width - 1 || y == 0 || y == height - 1 {
            var next := Put(m, Vec2(x, y), wall);
            m := next.value;
          }
          x := x + 1;
        }
        y := y + 1;
      }
    }
  }

  /** How often c occurs in a row (`chars().filter(..).count()`). */
  function CountIn(row: seq<char>, c: char): (n: nat)
    ensures n <= |row|
  {
    if |row| == 0 then 0 else CountIn(row[..|row| - 1], c) + (if row[|row| - 1] == c then 1 else 0)
  }

  /** How often c occurs in the rows. */
  function CountRows(rows: seq<seq<char>>, c: char): nat {
    if |rows| == 0 then 0 else CountRows(rows[..|rows| - 1], c) + CountIn(rows[|rows| - 1], c)
  }

  /** `count`: the occurrences of c over all rows. */
  method Count(m: Matrix, c: char) returns (count: nat)
    ensures count == CountRows(m.data, c)
    ensures Valid(m) ==> count <= m.width * m.height
  {
    count := 0;
    var i := 0;
    while i < |m.data|
      invariant 0 <= i <= |m.data|
      invariant count == CountRows(m.data[..i], c)
    {
      assert m.data[..i + 1][..i] == m.data[..i];
      count := count + CountIn(m.data[i], c);
      i := i + 1;
    }
    assert m.data[..i] == m.data;
    if Valid(m) {
      CountRowsBound(m.data, m.width, c);
    }
  }

  lemma {:induction false} CountRowsBound(rows: seq<seq<char>>, w: nat, c: char)
    requires forall y :: 0 <= y < |rows| ==> |rows[y]| == w
    ensures CountRows(rows, c) <= w * |rows|
  {
    if |rows| > 0 {
      CountRowsBound(rows[..|rows| - 1], w, c);
      assert w * |rows| == w * (|rows| - 1) + w;
    }
  }

  /** Writing one character into a row changes the count of c by at most
      one, in the direction the write implies. */
  lemma {:induction false} CountInUpdate(row: seq<char>, x: nat, d: char, c: char)
    requires x < |row|
    ensures CountIn(row[x := d], c) + (if row[x] == c then 1 else 0)
      == CountIn(row, c) + (if d == c then 1 else 0)
  {
    var n := |row|;
    if x < n - 1 {
      assert row[x := d][..n - 1] == row[..n - 1][x := d];
      CountInUpdate(row[..n - 1], x, d, c);
    } else {
      assert row[x := d][..n - 1] == row[..n - 1];
    }
  }

  lemma {:induction false} CountRowsUpdate(rows: seq<seq<char>>, y: nat, row: seq<char>, c: char)
    requires y < |rows|
    ensures CountRows(rows[y := row], c) + CountIn(rows[y], c) == CountRows(rows, c) + CountIn(row, c)
  {
    var n := |rows|;
    if y < n - 1 {
      assert rows[y := row][..n - 1] == rows[..n - 1][y := row];
      CountRowsUpdate(rows[..n - 1], y, row, c);
    } else {
      assert rows[y := row][..n - 1] == rows[..n - 1];
    }
  }

  /** `count` after a `put`: one more when c is written over another
      character, one less when c is overwritten, unchanged otherwise. */
  lemma CountAfterPut(m: Matrix, pos: Vec2, d: char, c: char)
    requires Valid(m) && Contains(m, pos)
    ensures CountRows(Put(m, pos, d).value.data, c) + (if At(m, pos) == c then 1 else 0)
      == CountRows(m.data, c) + (if d == c then 1 else 0)
  {
    var row := m.data[pos.y];
    CountInUpdate(row, pos.x, d, c);
    CountRowsUpdate(m.data, pos.y, row[pos.x := d], c);
  }

  /** The first line, at index `from` or later, whose length is not len. */
  function FirstMismatch(lines: seq<seq<char>>, len: nat, from: nat): (r: Option<nat>)
    requires from <= |lines|
    ensures r.Some? ==> from <= r.value < |lines| && |lines[r.value]| != len
    ensures forall i :: from <= i < |lines| && (r.None? || i < r.value) ==> |lines[i]| == len
    decreases |lines| - from
  {
    if from == |lines| then None
    else if |lines[from]| != len then Some(from)
    else FirstMismatch(lines, len, from + 1)
  }

  /** `read_matrix_from_lines`: no lines give a 0 x 0 grid; otherwise every
      line must be as long as the first, and the first line that is not is
      reported by its zero-based index in `lines`. */
  function ReadMatrixFromLines(lines: seq<seq<char>>): (r: Result<Matrix, MatrixError>)
    ensures |lines| == 0 ==> r == Success(Matrix(0, 0, []))
    ensures r.Success? <==> forall i :: 0 <= i < |lines| ==> |lines[i]| == |lines[0]|
    ensures r.Success? ==> Valid(r.value) && r.value.data == lines
    ensures r.Failure? ==> var e := r.error;
      && e.LineLength? && 0 < e.idx < |lines| && e.len == |lines[e.idx]| != e.expected == |lines[0]|
      && forall i :: 0 <= i < e.idx ==> |lines[i]| == |lines[0]|
  {
    if |lines| == 0 then Success(Matrix(0, 0, []))
    else
      var len := |lines[0]|;
      match FirstMismatch(lines, len, 1)
      case None => Success(Matrix(len, |lines|, lines))
      case Some(i) => Failure(LineLength(i, |lines[i]|, len))
  }

  /** The function as the source writes it: the index it reports counts
      from the second line (it enumerates after skipping the first), so it
      is one less than the index of the offending line. */
  function ReadMatrixFromLinesAsWritten(lines: seq<seq<char>>): (r: Result<Matrix, MatrixError>)
    ensures r.Success? <==> ReadMatrixFromLines(lines).Success?
    ensures r.Failure? ==> r.error.LineLength? && r.error.idx + 1 == ReadMatrixFromLines(lines).error.idx
  {
    if |lines| == 0 then Success(Matrix(0, 0, []))
    else
      var len := |lines[0]|;
      match FirstMismatch(lines, len, 1)
      case None => Success(Matrix(len, |lines|, lines))
      case Some(i) => Failure(LineLength(i - 1, |lines[i]|, len))
  }

  /** ["ab", "c"]: the second line is too short, yet the message names
      line 0, which has the right length. */
  lemma MisreportedLine()
    ensures var r := ReadMatrixFromLinesAsWritten(["ab", "c"]);
      r.Failure? && r.error.idx == 0 && |["ab", "c"][r.error.idx]| == r.error.expected
  {
    assert FirstMismatch(["ab", "c"], 2, 1) == Some(1);
  }

  /** p comes before q in row-major order. */
  predicate Precedes(p: Vec2, q: Vec2) {
    Before(p.x, p.y, q.x, q.y)
  }

  /** The first three promises of `find_points` about the lists it returns,
      for the cells before `cursor`: keys are marks with non-empty lists,
      each list holds positions of its key in row-major order, and every
      position of a mark is listed. */
  predicate KeysAreMarks(marks: set<char>, result: map<char, seq<Vec2>>) {
    forall c :: c in result ==> c in marks && |result[c]| > 0
  }

  predicate ListsHoldTheirKey(m: Matrix, result: map<char, seq<Vec2>>, cursor: Vec2)
    requires Valid(m)
  {
    forall c, i :: c in result && 0 <= i < |result[c]| ==>
      Contains(m, result[c][i]) && At(m, result[c][i]) == c && Precedes(result[c][i], cursor)
  }

  predicate ListsInOrder(result: map<char, seq<Vec2>>) {
    forall c, i, j :: c in result && 0 <= i < j < |result[c]| ==> Precedes(result[c][i], result[c][j])
  }

  ghost predicate MarksListed(m: Matrix, marks: set<char>, result: map<char, seq<Vec2>>, cursor: Vec2)
    requires Valid(m)
  {
    forall p :: Contains(m, p) && Precedes(p, cursor) && At(m, p) in marks ==>
      At(m, p) in result && p in result[At(m, p)]
  }

  /** all lists exactly the marked positions before the cursor. */
  ghost predicate AllMarked(m: Matrix, marks: set<char>, all: seq<Vec2>, cursor: Vec2)
    requires Valid(m)
  {
    && (forall i :: 0 <= i < |all| ==> Contains(m, all[i]))
    && (forall p :: p in all <==> Contains(m, p) && Precedes(p, cursor) && At(m, p) in marks)
  }

  ghost predicate ScanInv(m: Matrix, marks: set<char>, result: map<char, seq<Vec2>>, all: seq<Vec2>, cursor: Vec2)
    requires Valid(m)
  {
    && KeysAreMarks(marks, result)
    && ListsHoldTheirKey(m, result, cursor)
    && ListsInOrder(result)
    && MarksListed(m, marks, result, cursor)
    && AllMarked(m, marks, all, cursor)
  }

  /** The matrix with every position of ps overwritten by f. */
  function FillAll(m: Matrix, ps: seq<Vec2>, f: char): (r: Matrix)
    requires Valid(m) && forall i :: 0 <= i < |ps| ==> Contains(m, ps[i])
    ensures Valid(r) && r.width == m.width && r.height == m.height
    ensures forall p :: Contains(m, p) ==> At(r, p) == if p in ps then f else At(m, p)
    decreases |ps|
  {
    if |ps| == 0 then m
    else
      var m' := Put(m, ps[0], f).value;
      assert forall i :: 0 <= i < |ps| - 1 ==> Contains(m', ps[1..][i]) by {
        forall i | 0 <= i < |ps| - 1 ensures Contains(m', ps[1..][i]) {
          assert ps[1..][i] == ps[i + 1] && Contains(m, ps[i + 1]);
        }
      }
      var r := FillAll(m', ps[1..], f);
      assert forall p :: Contains(m, p) ==> At(r, p) == if p in ps then f else At(m, p) by {
        forall p | Contains(m, p) ensures At(r, p) == if p in ps then f else At(m, p) {
          assert p in ps <==> p == ps[0] || p in ps[1..];
          GetAfterPut(m, ps[0], f, p);
        }
      }
      r
  }

  /** One step of the scan of `find_points` at the cell pos holding c. */
  lemma ScanStep(m: Matrix, marks: set<char>, result: map<char, seq<Vec2>>, all: seq<Vec2>, pos: Vec2)
    requires Valid(m) && Contains(m, pos) && ScanInv(m, marks, result, all, pos)
    ensures var c := At(m, pos); var next := Vec2(pos.x + 1, pos.y);
      if c in marks then
        var list := if c in result then result[c] else [];
        ScanInv(m, marks, result[c := list + [pos]], all + [pos], next)
      else ScanInv(m, marks, result, all, next)
  {
    var c := At(m, pos);
    var next := Vec2(pos.x + 1, pos.y);
    assert forall p :: Precedes(p, next) <==> Precedes(p, pos) || p == pos;
    if c in marks {
      var list := if c in result then result[c] else [];
      var result' := result[c := list + [pos]];
      assert ListsHoldTheirKey(m, result', next) by {
        forall d, i | d in result' && 0 <= i < |result'[d]|
          ensures Contains(m, result'[d][i]) && At(m, result'[d][i]) == d && Precedes(result'[d][i], next)
        {
          if d == c && i == |list| {
          } else {
            assert result'[d][i] == result[d][i];
          }
        }
      }
      assert ListsInOrder(result') by {
        forall d, i, j | d in result' && 0 <= i < j < |result'[d]|
          ensures Precedes(result'[d][i], result'[d][j])
        {
          if d == c && j == |list| {
            assert Precedes(result[d][i], pos);
          } else {
            assert result'[d][i] == result[d][i] && result'[d][j] == result[d][j];
          }
        }
      }
      assert MarksListed(m, marks, result', next) by {
        forall p | Contains(m, p) && Precedes(p, next) && At(m, p) in marks
          ensures At(m, p) in result' && p in result'[At(m, p)]
        {
          if p != pos {
            assert p in result[At(m, p)];
          }
        }
      }
    }
  }

  /** Moving the cursor past the end of a row is moving it to the start of
      the next one. */
  lemma ScanNextRow(m: Matrix, marks: set<char>, result: map<char, seq<Vec2>>, all: seq<Vec2>, y: int)
    requires Valid(m) && ScanInv(m, marks, result, all, Vec2(m.width, y))
    ensures ScanInv(m, marks, result, all, Vec2(0, y + 1))
  {
    assert forall p :: Contains(m, p) ==> (Precedes(p, Vec2(m.width, y)) <==> Precedes(p, Vec2(0, y + 1)));
  }

  /** `find_points`: for every mark that occurs, the list of its positions
      in row-major order; when a fill character is given, every found
      position is overwritten with it. (The source fills while iterating
      its hash map; every write puts the same character, so the order does
      not matter, and the model fills in scan order.) */
  method FindPoints(m: Matrix, fill: Option<char>, marks: set<char>) returns (m': Matrix, result: map<char, seq<Vec2>>)
    requires Valid(m)
    ensures Valid(m') && m'.width == m.width && m'.height == m.height
    ensures KeysAreMarks(marks, result)
    ensures forall c, i :: c in result && 0 <= i < |result[c]| ==> Contains(m, result[c][i]) && At(m, result[c][i]) == c
    ensures ListsInOrder(result)
    ensures forall p :: Contains(m, p) && At(m, p) in marks ==> At(m, p) in result && p in result[At(m, p)]
    ensures forall p :: Contains(m, p) ==> At(m', p) == if fill.Some? && At(m, p) in marks then fill.value else At(m, p)
  {
    result := map[];
    var all: seq<Vec2> := [];
    var y := 0;
    while y < |m.data|
      invariant 0 <= y <= m.height
      invariant ScanInv(m, marks, result, all, Vec2(0, y))
    {
      var row := m.data[y];
      var x := 0;
      while x < |row|
        invariant 0 <= x <= m.width
        invariant ScanInv(m, marks, result, all, Vec2(x, y))
      {
        var c := row[x];
        ScanStep(m, marks, result, all, Vec2(x, y));
        if c in marks {
          var pos := Vec2(x, y);
          var list := if c in result then result[c] else [];
          result := result[c := list + [pos]];
          all := all + [pos];
        }
        x := x + 1;
      }
      ScanNextRow(m, marks, result, all, y);
      y := y + 1;
    }
    assert forall p :: Contains(m, p) ==> Precedes(p, Vec2(0, y));
    if fill.Some? {
      m' := FillAll(m, all, fill.value);
    } else {
      m' := m;
    }
  }

  /** c occurs somewhere in the grid. */
  ghost predicate Occurs(m: Matrix, c: char)
    requires Valid(m)
  {
    exists p :: Contains(m, p) && At(m, p) == c
  }

  /** No mark occurs twice. */
  ghost predicate SingleEach(m: Matrix, marks: set<char>)
    requires Valid(m)
  {
    forall p, q :: Contains(m, p) && Contains(m, q) && At(m, p) in marks && At(m, p) == At(m, q) ==> p == q
  }

  /** What `find_points` promises about its lists. */
  ghost predicate PointsOf(m: Matrix, marks: set<char>, pre: map<char, seq<Vec2>>)
    requires Valid(m)
  {
    && KeysAreMarks(marks, pre)
    && (forall c, i :: c in pre && 0 <= i < |pre[c]| ==> Contains(m, pre[c][i]) && At(m, pre[c][i]) == c)
    && ListsInOrder(pre)
    && (forall p :: Contains(m, p) && At(m, p) in marks ==> At(m, p) in pre && p in pre[At(m, p)])
  }

  /** The listed characters are exactly the marks that occur. */
  lemma PointsKeys(m: Matrix, marks: set<char>, pre: map<char, seq<Vec2>>)
    requires Valid(m) && PointsOf(m, marks, pre)
    ensures forall c :: c in pre <==> c in marks && Occurs(m, c)
  {
    forall c | c in pre ensures Occurs(m, c) {
      assert Contains(m, pre[c][0]) && At(m, pre[c][0]) == c;
    }
  }

  /** A subset as large as the set is the set. */
  lemma SubsetSameSize(a: set<char>, b: set<char>)
    requires a <= b && |a| == |b|
    ensures a == b
  {
    var d := b - a;
    assert a + d == b;
    assert a * d == {};
  }

  /** Every list has one entry exactly when no mark occurs twice. */
  lemma PointsSingle(m: Matrix, marks: set<char>, pre: map<char, seq<Vec2>>)
    requires Valid(m) && PointsOf(m, marks, pre)
    ensures (forall c :: c in pre ==> |pre[c]| == 1) <==> SingleEach(m, marks)
  {
    if forall c :: c in pre ==> |pre[c]| == 1 {
      forall p, q | Contains(m, p) && Contains(m, q) && At(m, p) in marks && At(m, p) == At(m, q)
        ensures p == q
      {
        var c := At(m, p);
        assert p in pre[c] && q in pre[c];
        assert pre[c] == [pre[c][0]];
      }
    } else {
      var c :| c in pre && |pre[c]| != 1;
      var p, q := pre[c][0], pre[c][1];
      assert Precedes(p, q);
      assert Contains(m, p) && Contains(m, q) && At(m, p) == c && At(m, q) == c;
    }
  }

  /** `find_single_points`: the position of each mark that occurs, after
      `find_points` (with its fill). It panics when `all` is set and some
      mark does not occur, and when some mark occurs more than once. */
  method FindSinglePoints(m: Matrix, fill: Option<char>, marks: set<char>, all: bool)
    returns (r: Result<(Matrix, map<char, Vec2>), MatrixError>)
    requires Valid(m)
    ensures r.Success? <==> (all ==> forall c :: c in marks ==> Occurs(m, c)) && SingleEach(m, marks)
    ensures r.Failure? && all && (exists c :: c in marks && !Occurs(m, c)) ==> r.error == MissingMarks
    ensures r.Success? ==> forall c :: c in r.value.1 <==> c in marks && Occurs(m, c)
    ensures r.Success? ==> forall c :: c in r.value.1 ==> Contains(m, r.value.1[c]) && At(m, r.value.1[c]) == c
    ensures r.Success? ==> Valid(r.value.0) && r.value.0.width == m.width && r.value.0.height == m.height
    ensures r.Success? ==> forall p :: Contains(m, p) ==>
      At(r.value.0, p) == if fill.Some? && At(m, p) in marks then fill.value else At(m, p)
  {
    var m', pre := FindPoints(m, fill, marks);
    assert PointsOf(m, marks, pre);
    PointsKeys(m, marks, pre);
    PointsSingle(m, marks, pre);
    assert pre.Keys <= marks;
    if all && |pre.Keys| != |marks| {
      assert exists c :: c in marks && !Occurs(m, c) by {
        if pre.Keys == marks {
          assert false;
        }
        var c :| c in marks && c !in pre.Keys;
      }
      return Failure(MissingMarks);
    }
    if all {
      SubsetSameSize(pre.Keys, marks);
    }
    if exists c :: c in pre && |pre[c]| != 1 {
      var c :| c in pre && |pre[c]| != 1;
      return Failure(NotSingle(c));
    }
    var result := map c | c in pre :: pre[c][0];
    return Success((m', result));
  }
}
