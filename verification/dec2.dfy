/** Day 2 of 2025 (aoc2025/src/dec2.rs): sum the "invalid" product ids in
    a list of ranges, an id being invalid when its decimal digits are one
    block written two or more times. The second part splits each range
    bound into blocks with `decompose_num`, scans the blocks for the first
    and last block value whose repetition lies in the range, builds each
    repetition, and keeps a set so that an id reachable with several block
    counts (1111 = 11|11 = 1|1|1|1) is added once. */
module Dec2 {
  import opened Arith
  import opened Seqs

  /** The number whose base-`power` digits, least significant first, are
      `pieces`: the sum of pieces[i] * power^i. */
  function Compose(pieces: seq<int>, power: int): int {
    if |pieces| == 0 then 0 else pieces[0] + power * Compose(pieces[1..], power)
  }

  /** Base-`power` digits of a positive number as `decompose_num` returns
      them: each in [0, power) and the most significant one not zero. */
  predicate Canonical(pieces: seq<int>, power: int) {
    (forall i :: 0 <= i < |pieces| ==> 0 <= pieces[i] < power)
    && (|pieces| > 0 ==> pieces[|pieces| - 1] != 0)
  }

  /** Rust's truncating quotient of a nonzero number by power >= 2 keeps
      its sign and is strictly smaller in magnitude. */
  lemma QuotientShrinks(num: int, power: int)
    requires power >= 2 && num != 0
    ensures var q := TruncDiv(num, power);
      (num > 0 ==> 0 <= q < num) && (num < 0 ==> num < q <= 0)
  {
    var q := TruncDiv(num, power);
    QuotientBound(num, power, q, num - q * power);
  }

  lemma QuotientBound(num: int, power: int, q: int, r: int)
    requires power >= 2 && num != 0 && num - r == q * power && -power < r < power
    requires (num > 0 ==> r >= 0) && (num < 0 ==> r <= 0)
    ensures (num > 0 ==> 0 <= q < num) && (num < 0 ==> num < q <= 0)
  {
    if q >= 1 {
      MulMonoLeft(q, 2, power);
    } else if q <= -1 {
      MulMonoLeft(-q, 2, power);
    }
  }

  /** One step of `decompose_num`: the remainder is the next digit and the
      quotient what is left. */
  lemma PieceFacts(num: int, power: int, q: int, rem: int)
    requires power >= 2 && num != 0 && q == TruncDiv(num, power) && rem == TruncRem(num, power)
    ensures num == rem + power * q
    ensures num > 0 ==> 0 <= rem < power && 0 <= q < num
    ensures num < 0 ==> -power < rem <= 0 && num < q <= 0
    ensures q == 0 ==> rem == num
  {
    QuotientShrinks(num, power);
  }

  /** `decompose_num`: the base-`power` digits of num, least significant
      first, taken with Rust's `%` and `/`, until the number is zero.
      Power 1 would never reach zero and power 0 panics; every caller uses a
      power of ten above one. */
  function DecomposeNum(num: int, power: int): (pieces: seq<int>)
    requires power >= 2
    ensures num == 0 <==> pieces == []
    ensures Compose(pieces, power) == num
    ensures num > 0 ==> Canonical(pieces, power)
    ensures num < 0 ==> (forall i :: 0 <= i < |pieces| ==> -power < pieces[i] <= 0)
                        && pieces[|pieces| - 1] != 0
    decreases Abs(num)
  {
    if num == 0 then []
    else
      var q := TruncDiv(num, power);
      var rem := TruncRem(num, power);
      PieceFacts(num, power, q, rem);
      var rest := DecomposeNum(q, power);
      var r := [rem] + rest;
      assert r[1..] == rest;
      r
  }

  /** Digits in [0, power) compose to a number below power^|pieces|. */
  lemma {:induction false} ComposeRange(pieces: seq<int>, power: nat)
    requires forall i :: 0 <= i < |pieces| ==> 0 <= pieces[i] < power
    ensures 0 <= Compose(pieces, power) < Pow(power, |pieces|)
  {
    if |pieces| > 0 {
      ComposeRange(pieces[1..], power);
      PowStep(power, |pieces|);
      LowDigitStep(pieces[0], power, Compose(pieces[1..], power), Pow(power, |pieces| - 1));
    }
  }

  /** A digit below p under a number below m gives a number below p m. */
  lemma LowDigitStep(d: int, p: int, x: int, m: int)
    requires 0 <= d < p && 0 <= x < m
    ensures 0 <= d + p * x < p * m
  {
    MulMonoLeft(p, 0, x);
    MulMonoLeft(p, x + 1, m);
    assert p * (x + 1) == p * x + p;
  }

  /** Composing a concatenation: the second part is shifted by |a| digits. */
  lemma {:induction false} ComposeConcat(a: seq<int>, b: seq<int>, power: nat)
    ensures Compose(a + b, power) == Compose(a, power) + Pow(power, |a|) * Compose(b, power)
  {
    if |a| > 0 {
      assert (a + b)[1..] == a[1..] + b;
      ComposeConcat(a[1..], b, power);
      Distribute(a[0], power, Compose(a[1..], power), Pow(power, |a| - 1), Compose(b, power));
    } else {
      assert a + b == b;
    }
  }

  lemma Distribute(d: int, p: int, x: int, q: int, c: int)
    ensures d + p * (x + q * c) == (d + p * x) + (p * q) * c
  {
    assert p * (x + q * c) == p * x + p * (q * c);
  }

  lemma TopBound(total: int, low: int, pk: int, top: int)
    requires total == low + pk * top && 0 <= low < pk && top >= 1
    ensures top * pk <= total < (top + 1) * pk && pk <= total
  {
    MulAtLeast(top, pk);
  }

  /** The most significant digit brackets a composed number. */
  lemma ComposeTop(pieces: seq<int>, power: nat)
    requires Canonical(pieces, power) && |pieces| > 0
    ensures pieces[|pieces| - 1] * Pow(power, |pieces| - 1) <= Compose(pieces, power)
    ensures Compose(pieces, power) < (pieces[|pieces| - 1] + 1) * Pow(power, |pieces| - 1)
    ensures Pow(power, |pieces| - 1) <= Compose(pieces, power)
  {
    var k := |pieces| - 1;
    var top := pieces[k];
    var low := pieces[..k];
    assert pieces == low + [top];
    var pk := Pow(power, k);
    ComposeConcat(low, [top], power);
    assert Compose([top], power) == top;
    ComposeRange(low, power);
    assert power >= 1;
    TopBound(Compose(pieces, power), Compose(low, power), pk, top);
  }

  /** Decomposing a composed canonical digit sequence gives it back: with
      the ensures of DecomposeNum, a positive number and its pieces are in
      one-to-one correspondence. */
  lemma {:induction false} DecomposeCompose(pieces: seq<int>, power: int)
    requires power >= 2 && Canonical(pieces, power)
    ensures DecomposeNum(Compose(pieces, power), power) == pieces
  {
    if |pieces| > 0 {
      var rest := pieces[1..];
      assert Canonical(rest, power);
      DecomposeCompose(rest, power);
      var c := Compose(rest, power);
      var n := Compose(pieces, power);
      ComposeRange(rest, power);
      if |rest| > 0 {
        ComposeTop(rest, power);
      }
      assert n > 0;
      DivModUnique(n, power, c, pieces[0]);
      TruncAgreesOnNaturals(n, power);
      assert DecomposeNum(n, power) == [pieces[0]] + DecomposeNum(c, power);
    }
  }

  /** The decimal digits of a positive number: as many as NumDigits says. */
  lemma DigitsLength(x: int)
    requires x >= 1
    ensures |DecomposeNum(x, 10)| == NumDigits(x)
  {
    var d := DecomposeNum(x, 10);
    ComposeRange(d, 10);
    ComposeTop(d, 10);
    NumDigitsUnique(x, |d|);
  }

  /** n copies of s, one after another. */
  function Copies(s: seq<int>, n: nat): (r: seq<int>)
    ensures |r| == n * |s|
  {
    if n == 0 then [] else
      var r := s + Copies(s, n - 1);
      assert |r| == |s| + (n - 1) * |s| == n * |s|;
      r
  }

  /** Copies of a canonical digit sequence are canonical: every digit comes
      from s and the most significant one is s's. */
  lemma {:induction false} CopiesCanonical(s: seq<int>, n: nat, power: int)
    requires Canonical(s, power) && |s| > 0
    ensures Canonical(Copies(s, n), power)
  {
    if n > 0 {
      CopiesCanonical(s, n - 1, power);
      var c := Copies(s, n);
      var rest := Copies(s, n - 1);
      assert c == s + rest;
      forall k | 0 <= k < |c| ensures 0 <= c[k] < power {
        if k >= |s| {
          assert c[k] == rest[k - |s|];
        }
      }
      if n > 1 {
        assert c[|c| - 1] == rest[|rest| - 1];
      }
    }
  }

  /** The repeated-block construction of `find_invalids2`: starting from 0,
      n times shift left by the decimal digits of i and add i. i is at
      least 1 since `ilog10` panics on 0. */
  function RepeatBlock(i: int, n: nat): int
    requires i >= 1
  {
    if n == 0 then 0 else RepeatBlock(i, n - 1) * Pow(10, NumDigits(i)) + i
  }

  lemma {:induction false} RepeatAtLeast(i: int, n: nat)
    requires i >= 1 && n >= 1
    ensures RepeatBlock(i, n) >= i
  {
    if n > 1 {
      RepeatAtLeast(i, n - 1);
      MulMonoLeft(Pow(10, NumDigits(i)), 0, RepeatBlock(i, n - 1));
    }
  }

  /** The construction read as digits: n copies of the digits of i. */
  lemma {:induction false} RepeatComposes(i: int, n: nat)
    requires i >= 1
    ensures RepeatBlock(i, n) == Compose(Copies(DecomposeNum(i, 10), n), 10)
  {
    if n > 0 {
      var d := DecomposeNum(i, 10);
      var rest := Copies(d, n - 1);
      RepeatComposes(i, n - 1);
      ComposeConcat(d, rest, 10);
      DigitsLength(i);
      RepeatStep(i, n);
      assert Copies(d, n) == d + rest;
    }
  }

  /** One more block goes below the ones already written. */
  lemma RepeatStep(i: int, n: nat)
    requires i >= 1 && n >= 1
    ensures RepeatBlock(i, n) == i + Pow(10, NumDigits(i)) * RepeatBlock(i, n - 1)
  {
    var prev := RepeatBlock(i, n - 1);
    MulComm(prev, Pow(10, NumDigits(i)));
  }

  /** The decimal digits of RepeatBlock(i, n) are those of i written n
      times. */
  lemma RepeatDigits(i: int, n: nat)
    requires i >= 1
    ensures DecomposeNum(RepeatBlock(i, n), 10) == Copies(DecomposeNum(i, 10), n)
  {
    var d := DecomposeNum(i, 10);
    RepeatComposes(i, n);
    CopiesCanonical(d, n, 10);
    DecomposeCompose(Copies(d, n), 10);
  }

  /** Hence a repetition of n blocks has n times as many digits as i. */
  lemma RepeatDigitCount(i: int, n: nat)
    requires i >= 1 && n >= 1
    ensures RepeatBlock(i, n) >= 1
    ensures NumDigits(RepeatBlock(i, n)) == n * NumDigits(i)
  {
    RepeatAtLeast(i, n);
    RepeatDigits(i, n);
    DigitsLength(i);
    DigitsLength(RepeatBlock(i, n));
  }

  /** Ten to the number of digits of i: the base in which i is one digit. */
  function BlockBase(i: int): (p: int)
    requires i >= 1
    ensures i < p && p >= 2
  {
    PowStrictMono(10, 0, NumDigits(i));
    Pow(10, NumDigits(i))
  }

  /** The construction read in base BlockBase(i): n digits all equal to i. */
  lemma {:induction false} RepeatIsConstant(i: int, n: nat)
    requires i >= 1
    ensures RepeatBlock(i, n) == Compose(Copies([i], n), BlockBase(i))
  {
    if n > 0 {
      var p := BlockBase(i);
      var prev := RepeatBlock(i, n - 1);
      RepeatIsConstant(i, n - 1);
      assert Copies([i], n)[1..] == Copies([i], n - 1);
      assert Compose(Copies([i], n), p) == i + p * prev;
      assert RepeatBlock(i, n) == prev * p + i;
    }
  }

  /** Splitting RepeatBlock(i, n) into blocks of i's width gives n blocks,
      each equal to i: the form `find_invalids2` compares range bounds
      against. */
  lemma RepeatBlocks(i: int, n: nat)
    requires i >= 1
    ensures DecomposeNum(RepeatBlock(i, n), BlockBase(i)) == Copies([i], n)
  {
    RepeatIsConstant(i, n);
    CopiesCanonical([i], n, BlockBase(i));
    DecomposeCompose(Copies([i], n), BlockBase(i));
  }

  lemma {:induction false} CopiesSnoc(s: seq<int>, n: nat)
    requires n >= 1
    ensures Copies(s, n) == Copies(s, n - 1) + s
  {
    if n > 1 {
      CopiesSnoc(s, n - 1);
    }
  }

  lemma {:induction false} CopiesConst(h: int, n: nat)
    ensures forall j :: 0 <= j < n ==> Copies([h], n)[j] == h
  {
    if n > 0 {
      CopiesConst(h, n - 1);
    }
  }

  /** Lexicographic order of two-part numbers: the high parts decide, the
      low parts only on a tie. */
  lemma LexOrder(a: int, hiA: int, b: int, hiB: int, pk: int)
    requires 0 <= a < pk && 0 <= b < pk
    ensures a + pk * hiA <= b + pk * hiB <==> hiA < hiB || (hiA == hiB && a <= b)
  {
    if hiA < hiB {
      MulMonoLeft(pk, hiA + 1, hiB);
      assert pk * (hiA + 1) == pk * hiA + pk;
    } else if hiA > hiB {
      MulMonoLeft(pk, hiB + 1, hiA);
      assert pk * (hiB + 1) == pk * hiB + pk;
    }
  }

  /** The scan for `start_ok`: from the most significant block down, the
      first block below `high` settles on `high`, the first above it on
      `high + 1`; all equal settles on `high`. */
  function ScanStart(pieces: seq<int>, high: int): (ok: int)
    ensures ok == high || ok == high + 1
  {
    if |pieces| == 0 then high
    else
      var piece := pieces[|pieces| - 1];
      if piece < high then high
      else if piece > high then high + 1
      else ScanStart(pieces[..|pieces| - 1], high)
  }

  /** The scan for `end_ok`, mirrored: the first block above `high` settles
      on `high`, the first below it on `high - 1`. */
  function ScanEnd(pieces: seq<int>, high: int): (ok: int)
    ensures ok == high || ok == high - 1
  {
    if |pieces| == 0 then high
    else
      var piece := pieces[|pieces| - 1];
      if piece > high then high
      else if piece < high then high - 1
      else ScanEnd(pieces[..|pieces| - 1], high)
  }

  /** Splitting off the most significant digit of a sequence and of the
      constant sequence of the same length. */
  lemma SplitTop(pieces: seq<int>, high: int, power: nat)
    requires |pieces| > 0
    requires forall i :: 0 <= i < |pieces| ==> 0 <= pieces[i] < power
    requires 0 <= high < power
    ensures var k := |pieces| - 1;
      var low := Compose(pieces[..k], power);
      var c := Compose(Copies([high], k), power);
      0 <= low < Pow(power, k) && 0 <= c < Pow(power, k)
      && Compose(pieces, power) == low + Pow(power, k) * pieces[k]
      && Compose(Copies([high], k + 1), power) == c + Pow(power, k) * high
  {
    var k := |pieces| - 1;
    assert pieces == pieces[..k] + [pieces[k]];
    ComposeConcat(pieces[..k], [pieces[k]], power);
    ComposeRange(pieces[..k], power);
    CopiesSnoc([high], k + 1);
    CopiesConst(high, k);
    ComposeConcat(Copies([high], k), [high], power);
    ComposeRange(Copies([high], k), power);
  }

  /** `start_ok` stays at `high` exactly when the start is not above the
      number whose blocks all equal `high`. */
  lemma {:induction false} ScanStartSpec(pieces: seq<int>, high: int, power: nat)
    requires forall i :: 0 <= i < |pieces| ==> 0 <= pieces[i] < power
    requires 0 <= high < power
    ensures ScanStart(pieces, high) == high
        <==> Compose(pieces, power) <= Compose(Copies([high], |pieces|), power)
  {
    if |pieces| > 0 {
      var k := |pieces| - 1;
      ScanStartSpec(pieces[..k], high, power);
      SplitTop(pieces, high, power);
      LexOrder(Compose(pieces[..k], power), pieces[k],
               Compose(Copies([high], k), power), high, Pow(power, k));
    }
  }

  /** `end_ok` stays at `high` exactly when the end is not below the number
      whose blocks all equal `high`. */
  lemma {:induction false} ScanEndSpec(pieces: seq<int>, high: int, power: nat)
    requires forall i :: 0 <= i < |pieces| ==> 0 <= pieces[i] < power
    requires 0 <= high < power
    ensures ScanEnd(pieces, high) == high
        <==> Compose(Copies([high], |pieces|), power) <= Compose(pieces, power)
  {
    if |pieces| > 0 {
      var k := |pieces| - 1;
      ScanEndSpec(pieces[..k], high, power);
      SplitTop(pieces, high, power);
      LexOrder(Compose(Copies([high], k), power), high,
               Compose(pieces[..k], power), pieces[k], Pow(power, k));
    }
  }

  /** In one base, the number whose digits all equal i grows with i. */
  lemma {:induction false} ConstMono(i: int, j: int, n: nat, power: nat)
    requires 0 <= i <= j
    ensures 0 <= Compose(Copies([i], n), power) <= Compose(Copies([j], n), power)
    ensures n >= 1 && i < j ==> Compose(Copies([i], n), power) < Compose(Copies([j], n), power)
  {
    if n > 0 {
      ConstMono(i, j, n - 1, power);
      assert Copies([i], n)[1..] == Copies([i], n - 1);
      assert Copies([j], n)[1..] == Copies([j], n - 1);
      MulMonoLeft(power, 0, Compose(Copies([i], n - 1), power));
      MulMonoLeft(power, Compose(Copies([i], n - 1), power), Compose(Copies([j], n - 1), power));
    }
  }

  /** Non-negative digits read in a larger base give a larger number. */
  lemma {:induction false} ComposeBaseMono(pieces: seq<int>, p1: nat, p2: nat)
    requires p1 <= p2 && forall i :: 0 <= i < |pieces| ==> pieces[i] >= 0
    ensures 0 <= Compose(pieces, p1) <= Compose(pieces, p2)
  {
    if |pieces| > 0 {
      ComposeBaseMono(pieces[1..], p1, p2);
      var c1 := Compose(pieces[1..], p1);
      var c2 := Compose(pieces[1..], p2);
      MulMonoLeft(p1, 0, c1);
      MulMonoLeft(p1, c1, c2);
      MulMonoLeft(c2, p1, p2);
    }
  }

  /** The repetition grows with its block: distinct blocks give distinct
      repetitions, in the same order. */
  lemma RepeatMono(i: int, j: int, n: nat)
    requires 1 <= i <= j && n >= 1
    ensures RepeatBlock(i, n) <= RepeatBlock(j, n)
    ensures i < j ==> RepeatBlock(i, n) < RepeatBlock(j, n)
  {
    NumDigitsMono(i, j);
    var di := NumDigits(i);
    var dj := NumDigits(j);
    if di == dj {
      RepeatIsConstant(i, n);
      RepeatIsConstant(j, n);
      ConstMono(i, j, n, BlockBase(i));
    } else {
      WiderRepeat(i, j, n);
    }
  }

  lemma WiderRepeat(i: int, j: int, n: nat)
    requires 1 <= i && 1 <= j && n >= 1 && NumDigits(i) < NumDigits(j)
    ensures RepeatBlock(i, n) < RepeatBlock(j, n)
  {
    RepeatDigitCount(i, n);
    RepeatDigitCount(j, n);
    MulStrictMono(n, NumDigits(i), NumDigits(j));
    MoreDigitsGreater(RepeatBlock(j, n), RepeatBlock(i, n));
  }

  /** `10i64.pow(digits / num_parts)`: the block base when a number with
      `digits` digits, a multiple of n, is cut into n blocks. */
  function BlockPower(digits: nat, n: nat): (p: int)
    requires n >= 1 && digits >= 1 && digits % n == 0
    ensures p >= 10
  {
    DivExact(digits, n);
    PowMono(10, 1, digits / n);
    Pow(10, digits / n)
  }

  /** The blocks of x when its digits are cut into n equal parts. */
  function Blocks(x: int, n: nat): (pieces: seq<int>)
    requires x >= 1 && n >= 1 && NumDigits(x) % n == 0
    ensures |pieces| > 0
  {
    DecomposeNum(x, BlockPower(NumDigits(x), n))
  }

  /** A number whose digit count is n * b has exactly n blocks in base
      10^b. */
  lemma BlockCount(x: int, n: nat)
    requires x >= 1 && n >= 1 && NumDigits(x) % n == 0
    ensures |Blocks(x, n)| == n
  {
    var d := NumDigits(x);
    DivExact(d, n);
    var b := d / n;
    var p := BlockPower(d, n);
    var s := Blocks(x, n);
    ComposeRange(s, p);
    ComposeTop(s, p);
    CountFromCompose(x, |s|, p, b, n);
  }

  /** A number with b * n digits lying between p^(m-1) and p^m, for
      p = 10^b, has m == n. */
  lemma CountFromCompose(x: int, m: nat, p: nat, b: nat, n: nat)
    requires p == Pow(10, b) && b >= 1 && n >= 1 && m >= 1
    requires Pow(p, m - 1) <= x < Pow(p, m)
    requires Pow(10, b * n - 1) <= x < Pow(10, b * n)
    ensures m == n
  {
    PowMul(10, b, m);
    PowMul(10, b, m - 1);
    CountFromBounds(x, b, n, m, b * (m - 1), b * m);
  }

  lemma CountFromBounds(x: int, b: nat, n: nat, m: nat, lo: nat, hi: nat)
    requires b >= 1 && n >= 1 && m >= 1 && lo == b * (m - 1) && hi == b * m
    requires Pow(10, lo) <= x < Pow(10, hi)
    requires Pow(10, b * n - 1) <= x < Pow(10, b * n)
    ensures m == n
  {
    ExponentOrder(x, lo, b * n);
    MulCancelLt(b, m - 1, n);
    ExponentOrder(x, b * n - 1, hi);
    MulCancelLe(b, n, m);
  }

  /** The top block of such a number has exactly b digits. */
  lemma TopBlock(x: int, n: nat)
    requires x >= 1 && n >= 1 && NumDigits(x) % n == 0
    ensures var s := Blocks(x, n); var h := s[|s| - 1];
      var p := BlockPower(NumDigits(x), n);
      |s| == n && 1 <= h < p && NumDigits(h) == NumDigits(x) / n && BlockBase(h) == p
  {
    BlockCount(x, n);
    var d := NumDigits(x);
    var b := d / n;
    DivExact(d, n);
    var p := BlockPower(d, n);
    var s := Blocks(x, n);
    var h := s[n - 1];
    ComposeTop(s, p);
    PowMul(10, b, n - 1);
    TopWidth(x, h, b, n);
    NumDigitsUnique(h, b);
  }

  /** The number lies between top * B^(n-1) and (top + 1) * B^(n-1) for
      B = 10^b. */
  lemma TopBracket(x: int, n: nat)
    requires x >= 1 && n >= 1 && NumDigits(x) % n == 0
    ensures var s := Blocks(x, n); var h := s[|s| - 1];
      var p := BlockPower(NumDigits(x), n);
      h * Pow(p, n - 1) <= x < (h + 1) * Pow(p, n - 1)
  {
    BlockCount(x, n);
    ComposeTop(Blocks(x, n), BlockPower(NumDigits(x), n));
  }

  lemma TopWidth(x: int, h: int, b: nat, n: nat)
    requires b >= 1 && n >= 1
    requires x < (h + 1) * Pow(10, b * (n - 1)) && Pow(10, b * n - 1) <= x
    ensures h >= Pow(10, b - 1)
  {
    PowAdd(10, b * (n - 1), b - 1);
    assert b * (n - 1) + (b - 1) == b * n - 1;
    TopAtLeast(x, h, Pow(10, b * (n - 1)), Pow(10, b - 1));
  }

  lemma TopAtLeast(x: int, h: int, pn: int, q: int)
    requires x < (h + 1) * pn && pn * q <= x && pn >= 0
    ensures h + 1 > q
  {
    if h + 1 <= q {
      MulMonoLeft(pn, h + 1, q);
    }
  }

  /** Repeating i n times gives at least i * B^(n-1), B = 10^digits(i). */
  lemma RepeatAtLeastTop(i: int, n: nat)
    requires i >= 1 && n >= 1
    ensures i * Pow(BlockBase(i), n - 1) <= RepeatBlock(i, n)
  {
    var c := Copies([i], n);
    RepeatIsConstant(i, n);
    CopiesCanonical([i], n, BlockBase(i));
    CopiesConst(i, n);
    ComposeTop(c, BlockBase(i));
  }

  /** Repeating i n times gives less than (i + 1) * B^(n-1) for any
      B = 10^b with b at least the digits of i. */
  lemma RepeatBelowTop(i: int, n: nat, b: nat)
    requires i >= 1 && n >= 1 && NumDigits(i) <= b
    ensures RepeatBlock(i, n) < (i + 1) * Pow(Pow(10, b), n - 1)
  {
    var p := Pow(10, b);
    var c := Copies([i], n);
    PowMono(10, NumDigits(i), b);
    RepeatIsConstant(i, n);
    CopiesConst(i, n);
    ComposeBaseMono(c, BlockBase(i), p);
    CopiesCanonical([i], n, p);
    ComposeTop(c, p);
  }

  /** The repetition of the block after the top one is above x. */
  lemma NextAbove(x: int, n: nat)
    requires x >= 1 && n >= 1 && NumDigits(x) % n == 0
    ensures RepeatBlock(Blocks(x, n)[|Blocks(x, n)| - 1] + 1, n) > x
  {
    TopBlock(x, n);
    TopBracket(x, n);
    var s := Blocks(x, n);
    var h := s[|s| - 1];
    var p := BlockPower(NumDigits(x), n);
    if h + 1 < p {
      SameWidthAbove(x, n, h, p);
    } else {
      assert h + 1 == p;
      WiderAbove(x, n, p);
    }
    assert RepeatBlock(h + 1, n) > x;
  }

  lemma SameWidthAbove(x: int, n: nat, h: int, p: int)
    requires 1 <= h && h + 1 < p && n >= 1 && p == BlockBase(h)
    requires x < (h + 1) * Pow(p, n - 1)
    ensures RepeatBlock(h + 1, n) > x
  {
    assert BlockBase(h + 1) == p by {
      NumDigitsMono(h, h + 1);
      NumDigitsUnique(h + 1, NumDigits(h));
    }
    RepeatAtLeastTop(h + 1, n);
  }

  lemma WiderAbove(x: int, n: nat, p: int)
    requires x >= 1 && n >= 1 && NumDigits(x) % n == 0
    requires p == BlockPower(NumDigits(x), n)
    ensures RepeatBlock(p, n) > x
  {
    var d := NumDigits(x);
    var b := d / n;
    assert NumDigits(p) == b + 1 by {
      PowStrictMono(10, b, b + 1);
      NumDigitsUnique(p, b + 1);
    }
    assert NumDigits(RepeatBlock(p, n)) > d by {
      DivExact(d, n);
      RepeatDigitCount(p, n);
      MulSucc(n, b);
    }
    MoreDigitsGreater(RepeatBlock(p, n), x);
  }

  /** The repetition of the block before the top one is below x. */
  lemma PrevBelow(x: int, n: nat)
    requires x >= 1 && n >= 1 && NumDigits(x) % n == 0
    requires Blocks(x, n)[|Blocks(x, n)| - 1] >= 2
    ensures RepeatBlock(Blocks(x, n)[|Blocks(x, n)| - 1] - 1, n) < x
  {
    TopBlock(x, n);
    TopBracket(x, n);
    var h := Blocks(x, n)[|Blocks(x, n)| - 1];
    var b := NumDigits(x) / n;
    PrevBelowTop(x, n, h, b, Pow(BlockPower(NumDigits(x), n), n - 1));
  }

  lemma PrevBelowTop(x: int, n: nat, h: int, b: nat, q: int)
    requires n >= 1 && h >= 2 && NumDigits(h) == b
    requires q == Pow(Pow(10, b), n - 1) && h * q <= x
    ensures RepeatBlock(h - 1, n) < x
  {
    NumDigitsMono(h - 1, h);
    RepeatBelowTop(h - 1, n, b);
    assert h - 1 + 1 == h;
  }

  /** `start_ok` (lines 146-156): the scan of the start's blocks from their
      top one. */
  function StartOk(pieces: seq<int>): (ok: int)
    requires |pieces| > 0
    ensures ok == pieces[|pieces| - 1] || ok == pieces[|pieces| - 1] + 1
  {
    ScanStart(pieces, pieces[|pieces| - 1])
  }

  /** `end_ok` (lines 158-168): the scan of the end's blocks from their top
      one. */
  function EndOk(pieces: seq<int>): (ok: int)
    requires |pieces| > 0
    ensures ok == pieces[|pieces| - 1] || ok == pieces[|pieces| - 1] - 1
  {
    ScanEnd(pieces, pieces[|pieces| - 1])
  }

  /** `start_ok` is the least block whose repetition is not below x. */
  lemma StartOkBounds(x: int, n: nat)
    requires x >= 1 && n >= 1 && NumDigits(x) % n == 0
    ensures var ok := StartOk(Blocks(x, n));
      ok >= 1 && RepeatBlock(ok, n) >= x && (ok >= 2 ==> RepeatBlock(ok - 1, n) < x)
  {
    TopBlock(x, n);
    var p := BlockPower(NumDigits(x), n);
    var s := Blocks(x, n);
    var h := s[n - 1];
    RepeatIsConstant(h, n);
    ScanStartSpec(s, h, p);
    if StartOk(s) == h {
      if h >= 2 {
        PrevBelow(x, n);
      }
    } else {
      NextAbove(x, n);
    }
  }

  /** `end_ok` is the greatest block whose repetition is not above x (0
      when there is none). */
  lemma EndOkBounds(x: int, n: nat)
    requires x >= 1 && n >= 1 && NumDigits(x) % n == 0
    ensures var ok := EndOk(Blocks(x, n));
      ok >= 0 && (ok >= 1 ==> RepeatBlock(ok, n) <= x) && RepeatBlock(ok + 1, n) > x
  {
    TopBlock(x, n);
    var p := BlockPower(NumDigits(x), n);
    var s := Blocks(x, n);
    var h := s[n - 1];
    RepeatIsConstant(h, n);
    ScanEndSpec(s, h, p);
    if EndOk(s) == h {
      NextAbove(x, n);
    } else if h >= 2 {
      PrevBelow(x, n);
    }
  }

  /** Lines 115-120: when the digit count of the start is not a multiple
      of n, the start moves up to the first number with the next multiple
      of n digits. Returns the new start and its digit count: the least
      number not below the start whose digit count is a multiple of n. */
  function RoundUpStart(start: int, n: nat): (r: (int, nat))
    requires start >= 1 && n >= 1
    ensures r.0 >= start && r.1 >= 1 && r.1 % n == 0 && NumDigits(r.0) == r.1
    ensures forall x :: x >= start && NumDigits(x) % n == 0 ==> x >= r.0
  {
    var digits := NumDigits(start);
    if digits % n == 0 then (start, digits)
    else
      var d := (digits / n + 1) * n;
      RoundUpFacts(start, n);
      (Pow(10, d - 1), d)
  }

  lemma RoundUpFacts(start: int, n: nat)
    requires start >= 1 && n >= 1 && NumDigits(start) % n != 0
    ensures var d := (NumDigits(start) / n + 1) * n;
      d > NumDigits(start) && d % n == 0 && NumDigits(Pow(10, d - 1)) == d
      && Pow(10, d - 1) >= start
      && forall x :: x >= start && NumDigits(x) % n == 0 ==> x >= Pow(10, d - 1)
  {
    var digits := NumDigits(start);
    var q := digits / n;
    var d := (q + 1) * n;
    RoundUpArith(digits, n);
    assert NumDigits(Pow(10, d - 1)) == d by {
      PowStrictMono(10, d - 1, d);
      NumDigitsUnique(Pow(10, d - 1), d);
    }
    PowMono(10, digits, d - 1);
    forall x | x >= start && NumDigits(x) % n == 0
      ensures x >= Pow(10, d - 1)
    {
      AboveRoundUp(x, start, n, digits, d);
    }
  }

  lemma AboveRoundUp(x: int, start: int, n: nat, digits: nat, d: nat)
    requires 1 <= start <= x && n >= 1 && NumDigits(x) % n == 0
    requires digits == NumDigits(start) && digits % n != 0 && d == (digits / n + 1) * n && d > digits
    ensures x >= Pow(10, d - 1)
  {
    NumDigitsMono(start, x);
    NextMultiple(digits, NumDigits(x), n);
    var e := NumDigits(x);
    assert d <= e;
    PowMono(10, d - 1, e - 1);
  }

  lemma RoundUpArith(digits: nat, n: nat)
    requires n >= 1 && digits % n != 0
    ensures (digits / n + 1) * n > digits && ((digits / n + 1) * n) % n == 0
  {
    var q := digits / n;
    assert digits == q * n + digits % n;
    MulSucc(n, q);
    MulMod(q + 1, n);
  }

  lemma RoundDownArith(digits: nat, n: nat)
    requires n >= 1 && digits % n != 0
    ensures (digits / n) * n < digits && ((digits / n) * n) % n == 0
  {
    assert digits == (digits / n) * n + digits % n;
    MulMod(digits / n, n);
  }

  /** Lines 122-127: when the digit count of the end is not a multiple of
      n, the end moves down to the last number with the previous multiple
      of n digits (0 when that multiple is 0). Returns the new end and its
      digit count: the greatest positive number not above the end whose
      digit count is a multiple of n, if any. */
  function RoundDownEnd(end: int, n: nat): (r: (int, nat))
    requires end >= 1 && n >= 1
    ensures r.0 <= end && r.1 % n == 0
    ensures r.1 >= 1 ==> r.0 >= 1 && NumDigits(r.0) == r.1
    ensures r.1 == 0 ==> r.0 == 0
    ensures forall x :: 1 <= x <= end && NumDigits(x) % n == 0 ==> x <= r.0
  {
    var digits := NumDigits(end);
    if digits % n == 0 then (end, digits)
    else
      var d := (digits / n) * n;
      RoundDownFacts(end, n);
      (Pow(10, d) - 1, d)
  }

  lemma RoundDownFacts(end: int, n: nat)
    requires end >= 1 && n >= 1 && NumDigits(end) % n != 0
    ensures var d := (NumDigits(end) / n) * n;
      d < NumDigits(end) && d % n == 0 && Pow(10, d) - 1 <= end
      && (d >= 1 ==> Pow(10, d) - 1 >= 1 && NumDigits(Pow(10, d) - 1) == d)
      && forall x :: 1 <= x <= end && NumDigits(x) % n == 0 ==> x <= Pow(10, d) - 1
  {
    var digits := NumDigits(end);
    var q := digits / n;
    var d := q * n;
    RoundDownArith(digits, n);
    PowMono(10, d, digits - 1);
    if d >= 1 {
      AllNines(d);
    }
    forall x | 1 <= x <= end && NumDigits(x) % n == 0
      ensures x <= Pow(10, d) - 1
    {
      BelowRoundDown(x, end, n, digits, d);
    }
  }

  lemma BelowRoundDown(x: int, end: int, n: nat, digits: nat, d: nat)
    requires 1 <= x <= end && n >= 1 && NumDigits(x) % n == 0
    requires digits == NumDigits(end) && digits % n != 0 && d == (digits / n) * n
    ensures x <= Pow(10, d) - 1
  {
    NumDigitsMono(x, end);
    PrevMultiple(digits, NumDigits(x), n);
    PowMono(10, NumDigits(x), d);
  }

  /** x is some block written n times. */
  ghost predicate IsRepetition(x: int, n: nat) {
    exists i :: i >= 1 && RepeatBlock(i, n) == x
  }

  /** For bounds whose digit counts are multiples of n, the scans select
      exactly the blocks whose repetition lies between the bounds. */
  lemma ScanSelects(start: int, end: int, n: nat, i: int)
    requires start >= 1 && end >= 1 && n >= 1
    requires NumDigits(start) % n == 0 && NumDigits(end) % n == 0 && i >= 1
    ensures StartOk(Blocks(start, n)) <= i <= EndOk(Blocks(end, n))
        <==> start <= RepeatBlock(i, n) <= end
  {
    StartOkBounds(start, n);
    EndOkBounds(end, n);
    SelectBetween(StartOk(Blocks(start, n)), EndOk(Blocks(end, n)), n, start, end, i);
  }

  /** Since repetitions grow with their block, the blocks whose repetition
      lies in [start, end] are those from the least one at or above start
      to the greatest one at or below end. */
  lemma SelectBetween(lo: int, hi: int, n: nat, start: int, end: int, i: int)
    requires lo >= 1 && hi >= 0 && n >= 1 && i >= 1
    requires RepeatBlock(lo, n) >= start && (lo >= 2 ==> RepeatBlock(lo - 1, n) < start)
    requires (hi >= 1 ==> RepeatBlock(hi, n) <= end) && RepeatBlock(hi + 1, n) > end
    ensures lo <= i <= hi <==> start <= RepeatBlock(i, n) <= end
  {
    if lo <= i <= hi {
      RepeatMono(lo, i, n);
      RepeatMono(i, hi, n);
    } else if i < lo {
      RepeatMono(i, lo - 1, n);
    } else {
      RepeatMono(hi + 1, i, n);
    }
  }

  /** The repetitions of n blocks for the blocks lo..=hi. */
  function Repetitions(lo: int, hi: int, n: nat): set<int>
    requires lo >= 1
  {
    set i | lo <= i <= hi :: RepeatBlock(i, n)
  }

  lemma RepetitionsSplit(lo: int, hi: int, n: nat)
    requires 1 <= lo <= hi
    ensures Repetitions(lo, hi, n) == {RepeatBlock(lo, n)} + Repetitions(lo + 1, hi, n)
  {
    var a := Repetitions(lo, hi, n);
    var b := {RepeatBlock(lo, n)} + Repetitions(lo + 1, hi, n);
    forall x | x in a ensures x in b {
      var i :| lo <= i <= hi && x == RepeatBlock(i, n);
      if i > lo {
        assert x in Repetitions(lo + 1, hi, n);
      }
    }
  }

  /** The loop over the blocks `start_ok..=end_ok` (lines 174-189): each
      repetition not yet in `found` goes into it and into the returned list,
      in order; repetitions already found are skipped. The list holds each
      new repetition once. */
  function CountRange(lo: int, hi: int, n: nat, found: set<int>): (r: (seq<int>, set<int>))
    requires lo >= 1
    ensures Distinct(r.0) && Elems(r.0) == Repetitions(lo, hi, n) - found
    ensures r.1 == found + Repetitions(lo, hi, n)
    decreases hi - lo + 1
  {
    if lo > hi then ([], found)
    else
      var x := RepeatBlock(lo, n);
      RepetitionsSplit(lo, hi, n);
      if x in found then CountRange(lo + 1, hi, n, found)
      else
        var rest := CountRange(lo + 1, hi, n, found + {x});
        DistinctConcat([x], rest.0);
        ([x] + rest.0, rest.1)
  }

  /** What the counting returns: the sum, the set of ids found so far, and
      the ids added to the sum, in order. */
  datatype Tally = Tally(total: int, found: set<int>, counted: seq<int>)

  /** A range of ids, both ends inclusive. */
  datatype Range = Range(start: int, end: int)

  /** Every repetition of n blocks has a digit count that is a positive
      multiple of n. */
  lemma RepetitionDigits(n: nat)
    requires n >= 1
    ensures forall i :: i >= 1 ==>
      RepeatBlock(i, n) >= 1 && NumDigits(RepeatBlock(i, n)) % n == 0
      && NumDigits(RepeatBlock(i, n)) >= n
  {
    forall i | i >= 1
      ensures RepeatBlock(i, n) >= 1 && NumDigits(RepeatBlock(i, n)) % n == 0
              && NumDigits(RepeatBlock(i, n)) >= n
    {
      RepeatDigitCount(i, n);
      MultipleFacts(NumDigits(RepeatBlock(i, n)), n, NumDigits(i));
    }
  }

  lemma MultipleFacts(x: int, n: nat, d: nat)
    requires x == n * d && n >= 1 && d >= 1
    ensures x % n == 0 && x >= n
  {
    MulMod(d, n);
    MulMonoLeft(n, 1, d);
  }

  /** The ids of a range that are repetitions of n blocks. */
  ghost function InvalidIn(input: Range, n: nat): set<int> {
    set x | input.start <= x <= input.end && IsRepetition(x, n)
  }

  /** With the bounds rounded, the blocks between the scanned first and last
      block are exactly those whose repetition lies in the range. */
  lemma RangeRepetitions(input: Range, n: nat)
    requires input.start >= 1 && input.end >= 1 && n >= 1
    requires RoundDownEnd(input.end, n).1 >= 1
    ensures StartOk(Blocks(RoundUpStart(input.start, n).0, n)) >= 1
    ensures Repetitions(StartOk(Blocks(RoundUpStart(input.start, n).0, n)),
                        EndOk(Blocks(RoundDownEnd(input.end, n).0, n)), n)
            == InvalidIn(input, n)
  {
    var start := RoundUpStart(input.start, n).0;
    var end := RoundDownEnd(input.end, n).0;
    var lo := StartOk(Blocks(start, n));
    var hi := EndOk(Blocks(end, n));
    StartOkBounds(start, n);
    forall x | x in Repetitions(lo, hi, n)
      ensures x in InvalidIn(input, n)
    {
      var i :| lo <= i <= hi && x == RepeatBlock(i, n);
      ScanSelects(start, end, n, i);
      assert IsRepetition(x, n);
    }
    RepetitionDigits(n);
    forall x | x in InvalidIn(input, n)
      ensures x in Repetitions(lo, hi, n)
    {
      var i :| i >= 1 && RepeatBlock(i, n) == x;
      ScanSelects(start, end, n, i);
    }
  }

  /** When no digit count up to the end's is a multiple of n, the range
      holds no repetition of n blocks. */
  lemma NoneInShortRange(input: Range, n: nat)
    requires input.start >= 1 && input.end >= 1 && n >= 1
    requires RoundDownEnd(input.end, n).1 == 0
    ensures InvalidIn(input, n) == {}
  {
    RepetitionDigits(n);
  }

  /** `find_invalids2` (lines 111-193): round the range bounds to digit
      counts that are multiples of n, find the first and last block by
      scanning the bounds' blocks, and add each repetition not found
      before. The ids counted are exactly the repetitions of n blocks in the
      range that were not found before, each once, and all of the range's
      repetitions are in the returned set. The bounds must be positive: `ilog10` panics on
      0. */
  function FindInvalids2(input: Range, n: nat, found: set<int>): (r: Tally)
    requires input.start >= 1 && input.end >= 1 && n >= 1
    ensures r.total == Sum(r.counted)
    ensures Distinct(r.counted) && Elems(r.counted) == InvalidIn(input, n) - found
    ensures r.found == found + InvalidIn(input, n)
  {
    var start := RoundUpStart(input.start, n).0;
    var (end, endDigits) := RoundDownEnd(input.end, n);
    if endDigits == 0 then
      NoneInShortRange(input, n);
      Tally(0, found, [])
    else
      var lo := StartOk(Blocks(start, n));
      var hi := EndOk(Blocks(end, n));
      RangeRepetitions(input, n);
      var (counted, found') := CountRange(lo, hi, n, found);
      Tally(Sum(counted), found', counted)
  }

  /** The ids of a range that are repetitions of some number of blocks
      between lo and hi. */
  ghost function InvalidBetween(input: Range, lo: nat, hi: nat): set<int> {
    set x | input.start <= x <= input.end && RepeatsBetween(x, lo, hi)
  }

  ghost predicate RepeatsBetween(x: int, lo: nat, hi: nat) {
    exists m: nat :: lo <= m <= hi && IsRepetition(x, m)
  }

  lemma InvalidBetweenSplit(input: Range, lo: nat, hi: nat)
    requires lo <= hi
    ensures InvalidBetween(input, lo, hi) == InvalidIn(input, lo) + InvalidBetween(input, lo + 1, hi)
  {
    forall x | x in InvalidBetween(input, lo, hi)
      ensures x in InvalidIn(input, lo) + InvalidBetween(input, lo + 1, hi)
    {
      var m: nat :| lo <= m <= hi && IsRepetition(x, m);
      if m > lo {
        assert x in InvalidBetween(input, lo + 1, hi);
      }
    }
  }

  /** The inner loop of `solve_task2` (lines 200-203): `find_invalids2` for
      each block count from n to maxN, threading the found set and adding up
      the results. */
  function SolveBlocks(input: Range, n: nat, maxN: nat, found: set<int>): (r: Tally)
    requires input.start >= 1 && input.end >= 1 && n >= 1
    ensures r.total == Sum(r.counted)
    ensures Distinct(r.counted) && Elems(r.counted) == InvalidBetween(input, n, maxN) - found
    ensures r.found == found + InvalidBetween(input, n, maxN)
    decreases maxN - n + 1
  {
    if n > maxN then Tally(0, found, [])
    else
      var a := FindInvalids2(input, n, found);
      var rest := SolveBlocks(input, n + 1, maxN, a.found);
      InvalidBetweenSplit(input, n, maxN);
      SumConcat(a.counted, rest.counted);
      DistinctConcat(a.counted, rest.counted);
      Tally(a.total + rest.total, rest.found, a.counted + rest.counted)
  }

  /** An id of part two: a repetition of at least two blocks. */
  ghost predicate IsInvalid(x: int) {
    exists m: nat :: m >= 2 && IsRepetition(x, m)
  }

  /** The invalid ids of a range. */
  ghost function InvalidOf(input: Range): set<int> {
    set x | input.start <= x <= input.end && IsInvalid(x)
  }

  /** A repetition of m blocks has at least m digits, so block counts above
      the end's digit count find nothing: the loop bound of `solve_task2`
      loses no id. */
  lemma AllBlockCounts(input: Range)
    requires input.end >= 1
    ensures InvalidBetween(input, 2, NumDigits(input.end)) == InvalidOf(input)
  {
    forall x | x in InvalidOf(input)
      ensures x in InvalidBetween(input, 2, NumDigits(input.end))
    {
      var m: nat :| m >= 2 && IsRepetition(x, m);
      var i :| i >= 1 && RepeatBlock(i, m) == x;
      RepetitionDigits(m);
      NumDigitsMono(x, input.end);
    }
  }

  /** The ranges an input line may hold: `ilog10` panics on a zero end, and
      on a zero start once the end has two digits or more. */
  predicate Checked(input: Range) {
    input.start >= 0 && input.end >= 1 && (input.end >= 10 ==> input.start >= 1)
  }

  /** The invalid ids of any of the ranges. */
  ghost function InvalidOfAll(inputs: seq<Range>): set<int> {
    if |inputs| == 0 then {} else InvalidOf(inputs[0]) + InvalidOfAll(inputs[1..])
  }

  lemma {:induction false} InvalidOfAllMembers(inputs: seq<Range>, x: int)
    ensures x in InvalidOfAll(inputs)
            <==> exists k :: 0 <= k < |inputs| && inputs[k].start <= x <= inputs[k].end && IsInvalid(x)
  {
    if |inputs| > 0 {
      InvalidOfAllMembers(inputs[1..], x);
      if x in InvalidOfAll(inputs[1..]) {
        var k :| 0 <= k < |inputs| - 1 && inputs[1..][k].start <= x <= inputs[1..][k].end && IsInvalid(x);
        assert inputs[k + 1] == inputs[1..][k];
      }
      if exists k :: 0 <= k < |inputs| && inputs[k].start <= x <= inputs[k].end && IsInvalid(x) {
        var k :| 0 <= k < |inputs| && inputs[k].start <= x <= inputs[k].end && IsInvalid(x);
        if k > 0 {
          assert inputs[1..][k - 1] == inputs[k];
        }
      }
    }
  }

  /** One block count range for one input (lines 199-203); a range whose end
      has one digit tries no block count. */
  function SolveInput(input: Range, found: set<int>): (r: Tally)
    requires Checked(input)
    ensures r.total == Sum(r.counted)
    ensures Distinct(r.counted) && Elems(r.counted) == InvalidOf(input) - found
    ensures r.found == found + InvalidOf(input)
  {
    AllBlockCounts(input);
    if input.end < 10 then
      assert NumDigits(input.end) < 2;
      Tally(0, found, [])
    else
      SolveBlocks(input, 2, NumDigits(input.end), found)
  }

  /** The outer loop of `solve_task2` (lines 198-204), over the inputs in
      order with one found set shared by all of them. */
  function SolveInputs(inputs: seq<Range>, found: set<int>): (r: Tally)
    requires forall k :: 0 <= k < |inputs| ==> Checked(inputs[k])
    ensures r.total == Sum(r.counted)
    ensures Distinct(r.counted) && Elems(r.counted) == InvalidOfAll(inputs) - found
    ensures r.found == found + InvalidOfAll(inputs)
  {
    if |inputs| == 0 then Tally(0, found, [])
    else
      var a := SolveInput(inputs[0], found);
      var rest := SolveInputs(inputs[1..], a.found);
      SumConcat(a.counted, rest.counted);
      DistinctConcat(a.counted, rest.counted);
      Tally(a.total + rest.total, rest.found, a.counted + rest.counted)
  }

  /** `solve_task2` (lines 195-206): the answer `r.total` is the sum of the
      distinct ids that lie in some range and repeat a block at least
      twice; an id in several ranges, or a repetition for several block
      counts, is added once. */
  function SolveTask2(inputs: seq<Range>): (r: Tally)
    requires forall k :: 0 <= k < |inputs| ==> Checked(inputs[k])
    ensures r.total == Sum(r.counted) && Distinct(r.counted)
    ensures forall x ::
              x in r.counted
              <==> exists k :: 0 <= k < |inputs| && inputs[k].start <= x <= inputs[k].end && IsInvalid(x)
  {
    var r := SolveInputs(inputs, {});
    forall x ensures x in r.counted
      <==> exists k :: 0 <= k < |inputs| && inputs[k].start <= x <= inputs[k].end && IsInvalid(x)
    {
      InvalidOfAllMembers(inputs, x);
      assert x in r.counted <==> x in Elems(r.counted);
    }
    r
  }
}
