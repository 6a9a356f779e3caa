/** The safe dial (aoc2025/src/dec1.rs): a dial of 100 positions, turned
    left or right by a number of clicks; part one counts the turns that end
    at 0, part two every click that passes 0.

    The parser reads each move as `L` or `R` and a digit string, so click
    counts are natural numbers here. */
module Dec1 {
  import opened Wrappers
  import opened Arith

  /** One line of input: a direction and a number of clicks. */
  datatype Move = Move(left: bool, num: nat)

  /** The panics of `compute_stuff2`, by source line. */
  datatype Panic = Impossible(line: nat)

  /** The change of position a move makes before wrapping. */
  function Signed(m: Move): int {
    if m.left then -(m.num as int) else m.num
  }

  /** The wrap-around step of `compute_stuff`: Rust's `%` keeps the sign of
      the dividend, so a negative remainder is moved up by 100. */
  function Wrap(x: int): (r: int)
    ensures 0 <= r < 100
    ensures r == x % 100
  {
    var r := TruncRem(x, 100);
    if r < 0 then r + 100 else r
  }

  /** The number of moves, from `pos` on, that end at position 0. */
  function Landings(moves: seq<Move>, pos: int): nat {
    if |moves| == 0 then 0
    else
      var next := (pos + Signed(moves[0])) % 100;
      (if next == 0 then 1 else 0) + Landings(moves[1..], next)
  }

  /** `compute_stuff`: a start at 0 counts once, and so does every move that
      ends at 0. */
  method ComputeStuff(moves: seq<Move>, startPos: int) returns (count: int)
    ensures count == (if startPos == 0 then 1 else 0) + Landings(moves, startPos)
    ensures count >= 0
  {
    var currentPos := startPos;
    count := if startPos == 0 then 1 else 0;
    var i := 0;
    while i < |moves|
      invariant 0 <= i <= |moves|
      invariant i > 0 ==> 0 <= currentPos < 100
      invariant count + Landings(moves[i..], currentPos) == (if startPos == 0 then 1 else 0) + Landings(moves, startPos)
    {
      assert moves[i..][1..] == moves[i + 1..];
      currentPos := Wrap(currentPos + Signed(moves[i]));
      if currentPos == 0 {
        count := count + 1;
      }
      i := i + 1;
    }
  }

  /** The number of single clicks of a move from `pos` that leave the dial
      at 0: the clicks k in 1..n with pos -/+ k divisible by 100. */
  function ZeroClicks(pos: int, left: bool, n: nat): nat {
    if n == 0 then 0
    else ZeroClicks(pos, left, n - 1) + (if (if left then pos - n else pos + n) % 100 == 0 then 1 else 0)
  }

  lemma DivStep(x: int)
    requires x >= 1
    ensures x / 100 == (x - 1) / 100 + (if x % 100 == 0 then 1 else 0)
  {
    var q, r := (x - 1) / 100, (x - 1) % 100;
    assert x == 100 * q + r + 1;
    if r == 99 {
      assert x == 100 * (q + 1);
    } else {
      assert x == 100 * q + (r + 1);
    }
  }

  /** Turning right n clicks from p passes 0 exactly (p + n) / 100 times. */
  lemma {:induction false} RightClicks(p: int, n: nat)
    requires 0 <= p < 100
    ensures ZeroClicks(p, false, n) == (p + n) / 100
  {
    if n > 0 {
      RightClicks(p, n - 1);
      DivStep(p + n);
    }
  }

  /** Turning left from p meets 0 on the same clicks as turning right from
      the mirrored position. */
  lemma {:induction false} LeftIsMirroredRight(p: int, n: nat)
    requires 0 <= p < 100
    ensures ZeroClicks(p, true, n) == ZeroClicks((100 - p) % 100, false, n)
  {
    if n > 0 {
      LeftIsMirroredRight(p, n - 1);
      MirrorZero(p, n);
    }
  }

  /** Click n to the left of p shows 0 exactly when click n to the right of
      the mirrored position does. */
  lemma MirrorZero(p: int, n: nat)
    requires 0 <= p < 100
    ensures (p - n) % 100 == 0 <==> ((100 - p) % 100 + n) % 100 == 0
  {
    var m := (100 - p) % 100;
    if p == 0 {
      assert m == 0;
    } else {
      assert m + n == 100 - (p - n);
    }
  }

  /** One move of `compute_stuff2` with the evidently intended handling of a
      start at 0: the new position and the number of times the dial showed 0
      during the move (full rotations, plus one if the rest of the move
      reaches or passes 0). */
  function Turn(pos: int, m: Move): (r: Result<(int, int), Panic>)
    ensures 0 <= pos < 100 ==> r.Success? && 0 <= r.value.0 < 100 && r.value.1 >= m.num / 100
    ensures m.num == 0 ==> r == Success((pos, 0))
  {
    if m.num == 0 then Success((pos, 0))
    else
      var prePos := pos;
      var flipped := if m.left then -pos else pos;
      var rotations := m.num / 100;
      var delta := m.num % 100;
      var p1 := TruncRem(flipped + delta + 100, 100);
      if p1 < 0 then Failure(Impossible(63))
      else
        var p2 := if m.left then TruncRem(100 - p1, 100) else p1;
        if p2 < 0 then Failure(Impossible(68))
        else if prePos == 0 then Success((p2, rotations))
        else if p2 == 0 then Success((p2, rotations + 1))
        else if m.left && p2 > prePos then Success((p2, rotations + 1))
        else if !m.left && p2 < prePos then Success((p2, rotations + 1))
        else Success((p2, rotations))
  }

  /** A move from a position on the dial ends where the clicks lead, and
      counts exactly the clicks that show 0. */
  lemma TurnCountsClicks(pos: int, m: Move)
    requires 0 <= pos < 100
    ensures Turn(pos, m) == Success(((pos + Signed(m)) % 100, ZeroClicks(pos, m.left, m.num)))
  {
    if m.num == 0 {
    } else if m.left {
      TurnLeft(pos, m.num);
    } else {
      TurnRight(pos, m.num);
    }
  }

  lemma TurnRight(p: int, n: nat)
    requires 0 <= p < 100 && n > 0
    ensures Turn(p, Move(false, n)) == Success(((p + n) % 100, ZeroClicks(p, false, n)))
  {
    RightClicks(p, n);
    RightArith(p, n);
  }

  /** The arithmetic behind a right turn of n > 0 clicks from p. */
  lemma RightArith(p: int, n: nat)
    requires 0 <= p < 100 && n > 0
    ensures TruncRem(p + n % 100 + 100, 100) == (p + n) % 100
    ensures (p + n) / 100 == n / 100 + (if p + n % 100 >= 100 then 1 else 0)
    ensures p + n % 100 >= 100 ==> (p + n) % 100 < p
    ensures p + n % 100 < 100 ==> (p + n) % 100 == p + n % 100
  {
    var rot, delta := n / 100, n % 100;
    assert n == 100 * rot + delta;
    TruncAgreesOnNaturals(p + delta + 100, 100);
    if p + delta < 100 {
      assert p + n == 100 * rot + (p + delta);
    } else {
      assert p + n == 100 * (rot + 1) + (p + delta - 100);
    }
  }

  lemma TurnLeft(p: int, n: nat)
    requires 0 <= p < 100 && n > 0
    ensures Turn(p, Move(true, n)) == Success(((p - n) % 100, ZeroClicks(p, true, n)))
  {
    var mirror := (100 - p) % 100;
    LeftIsMirroredRight(p, n);
    RightClicks(mirror, n);
    LeftArith(p, n);
  }

  /** The arithmetic behind a left turn of n > 0 clicks from p: the code
      turns the mirrored position right by n mod 100 and mirrors back. */
  lemma LeftArith(p: int, n: nat)
    requires 0 <= p < 100 && n > 0
    ensures var p1 := if n % 100 >= p then n % 100 - p else 100 - p + n % 100;
      && TruncRem(-p + n % 100 + 100, 100) == p1
      && TruncRem(100 - p1, 100) == (p - n) % 100
    ensures ((100 - p) % 100 + n) / 100 == n / 100 + (if p > 0 && n % 100 >= p then 1 else 0)
    ensures p > 0 ==> ((p - n) % 100 == 0 <==> n % 100 == p)
    ensures p > 0 && n % 100 > p ==> (p - n) % 100 > p
    ensures p > 0 && n % 100 < p ==> (p - n) % 100 <= p
  {
    LeftTrunc(p, n);
    LeftPos(p, n);
    MirrorDiv(p, n);
  }

  /** The code's truncating remainders agree with the Euclidean ones on
      the non-negative values it takes them of. */
  lemma LeftTrunc(p: int, n: nat)
    requires 0 <= p < 100 && n > 0
    ensures var p1 := if n % 100 >= p then n % 100 - p else 100 - p + n % 100;
      && TruncRem(-p + n % 100 + 100, 100) == p1
      && TruncRem(100 - p1, 100) == (p - n) % 100
  {
    var delta := n % 100;
    var p1 := if delta >= p then delta - p else 100 - p + delta;
    LeftPos(p, n);
    var x := -p + delta + 100;
    TruncAgreesOnNaturals(x, 100);
    if delta >= p {
      DivModUnique(x, 100, 1, delta - p);
    } else {
      DivModUnique(x, 100, 0, x);
    }
    var y := 100 - p1;
    TruncAgreesOnNaturals(y, 100);
    if y == 100 {
      DivModUnique(y, 100, 1, 0);
    } else {
      DivModUnique(y, 100, 0, y);
    }
  }

  /** Where a left turn ends, in terms of the clicks beyond full rotations. */
  lemma LeftPos(p: int, n: nat)
    requires 0 <= p < 100
    ensures (p - n) % 100 == if n % 100 <= p then p - n % 100 else 100 + p - n % 100
  {
    var rot, delta := n / 100, n % 100;
    assert n == 100 * rot + delta;
    if delta <= p {
      assert p - n == 100 * (-rot) + (p - delta);
    } else {
      assert p - n == 100 * (-rot - 1) + (100 + p - delta);
    }
  }

  lemma MirrorDiv(p: int, n: nat)
    requires 0 <= p < 100 && n > 0
    ensures ((100 - p) % 100 + n) / 100 == n / 100 + (if p > 0 && n % 100 >= p then 1 else 0)
  {
    var rot, delta := n / 100, n % 100;
    assert n == 100 * rot + delta;
    if p == 0 {
      assert (100 - p) % 100 == 0;
    } else if delta >= p {
      assert (100 - p) % 100 + n == 100 * (rot + 1) + (delta - p);
    } else {
      assert (100 - p) % 100 + n == 100 * rot + (100 - p + delta);
    }
  }

  /** `compute_stuff2`'s step as written: a move that starts at 0 and ends
      at 0 panics, although a whole number of rotations from 0 is an
      ordinary move. */
  function TurnAsWritten(pos: int, m: Move): (r: Result<(int, int), Panic>)
    ensures Turn(pos, m).Failure? ==> r == Turn(pos, m)
  {
    var t :- Turn(pos, m);
    if m.num != 0 && pos == 0 && t.0 == 0 then Failure(Impossible(72)) else Success(t)
  }

  /** As written, a move panics exactly when it starts at 0 and its length
      is a positive multiple of 100; otherwise it agrees with `Turn`. */
  lemma TurnAsWrittenPanics(pos: int, m: Move)
    requires 0 <= pos < 100
    ensures TurnAsWritten(pos, m).Failure? <==> pos == 0 && m.num > 0 && m.num % 100 == 0
    ensures TurnAsWritten(pos, m).Success? ==> TurnAsWritten(pos, m) == Turn(pos, m)
  {
    TurnCountsClicks(pos, m);
  }

  /** The clicks showing 0 over all moves from `pos` on. */
  ghost function Clicks(moves: seq<Move>, pos: int): nat {
    if |moves| == 0 then 0
    else ZeroClicks(pos, moves[0].left, moves[0].num) + Clicks(moves[1..], (pos + Signed(moves[0])) % 100)
  }

  /** The moves of `compute_stuff2` from `pos` on, summing what each move
      counts. */
  function Dial(moves: seq<Move>, pos: int): (r: Result<int, Panic>)
    ensures 0 <= pos < 100 ==> r == Success(Clicks(moves, pos))
  {
    if |moves| == 0 then Success(0)
    else
      var t :- Turn(pos, moves[0]);
      TurnCountsClicks2(pos, moves[0]);
      var rest :- Dial(moves[1..], t.0);
      Success(t.1 + rest)
  }

  lemma TurnCountsClicks2(pos: int, m: Move)
    ensures 0 <= pos < 100 ==> Turn(pos, m) == Success(((pos + Signed(m)) % 100, ZeroClicks(pos, m.left, m.num)))
  {
    if 0 <= pos < 100 {
      TurnCountsClicks(pos, m);
    }
  }

  /** `compute_stuff2` with the start-at-0 case fixed: a start at 0 counts
      once, then every click that shows 0. */
  function ComputeStuff2(moves: seq<Move>, startPos: int): (r: Result<int, Panic>)
    ensures 0 <= startPos < 100 ==> r == Success((if startPos == 0 then 1 else 0) + Clicks(moves, startPos))
  {
    var c :- Dial(moves, startPos);
    Success((if startPos == 0 then 1 else 0) + c)
  }

  /** The loop of `compute_stuff2` as written. */
  function DialAsWritten(moves: seq<Move>, pos: int): (r: Result<int, Panic>)
    ensures Dial(moves, pos).Failure? ==> r.Failure?
    ensures r.Success? ==> r == Dial(moves, pos)
  {
    if |moves| == 0 then Success(0)
    else
      var t :- TurnAsWritten(pos, moves[0]);
      var rest :- DialAsWritten(moves[1..], t.0);
      Success(t.1 + rest)
  }

  /** `compute_stuff2` as written: wherever it does not panic it gives the
      corrected count, and it panics wherever the corrected one does. */
  function ComputeStuff2AsWritten(moves: seq<Move>, startPos: int): (r: Result<int, Panic>)
    ensures r.Success? ==> r == ComputeStuff2(moves, startPos)
    ensures ComputeStuff2(moves, startPos).Failure? ==> r.Failure?
  {
    var c :- DialAsWritten(moves, startPos);
    Success((if startPos == 0 then 1 else 0) + c)
  }

  /** Turning right 50 from 50 reaches 0, and a further full turn right
      panics as written; the fixed version counts both visits to 0. */
  lemma FullTurnFromZeroPanics()
    ensures ComputeStuff2AsWritten([Move(false, 50), Move(false, 100)], 50) == Failure(Impossible(72))
    ensures ComputeStuff2([Move(false, 50), Move(false, 100)], 50) == Success(2)
  {
    var moves := [Move(false, 50), Move(false, 100)];
    TurnCountsClicks(50, moves[0]);
    RightClicks(50, 50);
    assert TurnAsWritten(50, moves[0]) == Success((0, 1));
    TurnCountsClicks(0, moves[1]);
    RightClicks(0, 100);
    assert TurnAsWritten(0, moves[1]) == Failure(Impossible(72));
    assert moves[1..] == [Move(false, 100)];
    assert moves[1..][1..] == [];
    assert DialAsWritten(moves[1..], 0) == Failure(Impossible(72));
    assert Dial(moves[1..][1..], 0) == Success(0);
    assert Dial(moves[1..], 0) == Success(1);
  }
}
