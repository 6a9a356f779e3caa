/** Bridge calibration (2024/Test0/src/dec7.rs): can the operators between
    a task's numbers, evaluated strictly left to right, be chosen so that
    the numbers make the task's result? Part one allows + and *, part two
    also the concatenation of decimal digits. */
module Dec7 {
  import opened Wrappers
  import opened Arith

  datatype Task = Task(result: int, numbers: seq<int>)

  datatype Op = Add | Mul | Con

  datatype Dec7Error =
    | TooManyNumbers
    | IndexOutOfBounds
    | Log10OfNonPositive

  /** `ilog10`: the exponent of the largest power of ten not above n. */
  function ILog10(n: int): (r: nat)
    requires n > 0
    ensures Pow(10, r) <= n < Pow(10, r + 1)
  {
    if n < 10 then 0 else 1 + ILog10(n / 10)
  }

  /** One operator applied to the value so far and the next number.
      Concatenation shifts the value left by the digits of n; `ilog10`
      panics for n <= 0. */
  function Apply(acc: int, op: Op, n: int): (r: Result<int, Dec7Error>)
    ensures r.Failure? <==> op == Con && n <= 0
  {
    match op
    case Add => Success(acc + n)
    case Mul => Success(acc * n)
    case Con =>
      if n <= 0 then Failure(Log10OfNonPositive)
      else Success(acc * Pow(10, ILog10(n) + 1) + n)
  }

  /** Concatenation writes n's digits after acc's: dividing by ten to the
      number of n's digits gives acc back, and the remainder is n. */
  lemma ConcatSplits(acc: nat, n: int)
    requires n > 0
    ensures var p := Pow(10, ILog10(n) + 1); var r := Apply(acc, Con, n).value;
      0 <= n < p && r / p == acc && r % p == n
  {
    var p := Pow(10, ILog10(n) + 1);
    var r := acc * p + n;
    assert r == Apply(acc, Con, n).value;
    DivModUnique(r, p, acc, n);
  }

  /** The numbers after the first, combined left to right with ops. */
  function Eval(acc: int, rest: seq<int>, ops: seq<Op>): (r: Result<int, Dec7Error>)
    requires |ops| == |rest|
    ensures r.Failure? ==> exists j :: 0 <= j < |ops| && ops[j] == Con && rest[j] <= 0
    decreases |ops|
  {
    if |ops| == 0 then Success(acc)
    else
      var next :- Apply(acc, ops[0], rest[0]);
      var r := Eval(next, rest[1..], ops[1..]);
      assert r.Failure? ==> exists j :: 0 <= j < |ops| && ops[j] == Con && rest[j] <= 0 by {
        if r.Failure? {
          var j :| 0 <= j < |ops| - 1 && ops[1..][j] == Con && rest[1..][j] <= 0;
          assert ops[j + 1] == Con && rest[j + 1] <= 0;
        }
      }
      r
  }

  /** Evaluation fails only on a concatenation with a number that is not
      positive; in particular + and * alone always evaluate. */
  predicate NoCon(ops: seq<Op>) {
    forall j :: 0 <= j < |ops| ==> ops[j] != Con
  }

  predicate Positive(rest: seq<int>) {
    forall j :: 0 <= j < |rest| ==> rest[j] > 0
  }

  lemma EvalSucceeds(acc: int, rest: seq<int>, ops: seq<Op>)
    requires |ops| == |rest| && (NoCon(ops) || Positive(rest))
    ensures Eval(acc, rest, ops).Success?
  {
  }

  /** Some choice of operators (concatenation only when allowed) makes the
      numbers evaluate to the result. */
  ghost predicate Solvable(task: Task, withCon: bool)
    requires |task.numbers| > 0
  {
    exists ops: seq<Op> :: |ops| == |task.numbers| - 1 && (withCon || NoCon(ops))
      && Eval(task.numbers[0], task.numbers[1..], ops) == Success(task.result)
  }

  /** Part two can use every choice part one can. */
  lemma SolvableImpliesSolvable2(task: Task)
    requires |task.numbers| > 0 && Solvable(task, false)
    ensures Solvable(task, true)
  {
    var ops :| |ops| == |task.numbers| - 1 && NoCon(ops)
      && Eval(task.numbers[0], task.numbers[1..], ops) == Success(task.result);
  }

  /** The operators that combination number m picks in `solve_task`: the
      j-th operator is * when bit j of m is set, + otherwise. */
  function BitsOps(m: nat, k: nat): (ops: seq<Op>)
    ensures |ops| == k && NoCon(ops)
  {
    if k == 0 then [] else [if m % 2 == 1 then Mul else Add] + BitsOps(m / 2, k - 1)
  }

  /** The operator at j is decided by bit j of m, the bit the source tests
      with `n & (1 << j)`. */
  lemma {:induction false} BitsOpsBit(m: nat, k: nat, j: nat)
    requires j < k
    ensures BitsOps(m, k)[j] == if (m / Pow(2, j)) % 2 == 1 then Mul else Add
  {
    if j > 0 {
      BitsOpsBit(m / 2, k - 1, j - 1);
      assert BitsOps(m, k)[j] == BitsOps(m / 2, k - 1)[j - 1];
      DivDiv(m, 2, Pow(2, j - 1));
      PowStep(2, j);
    } else {
      assert Pow(2, 0) == 1;
    }
  }

  lemma DivDiv(m: nat, a: nat, b: nat)
    requires a > 0 && b > 0
    ensures m / a / b == m / (a * b)
  {
    var q, r1 := m / a, m % a;
    var q2, r2 := q / b, q % b;
    Regroup(m, a, b, q, r1, q2, r2);
    DivModUnique(m, a * b, q2, r2 * a + r1);
  }

  /** Two division steps combine into one by the product. */
  lemma Regroup(m: nat, a: nat, b: nat, q: nat, r1: nat, q2: nat, r2: nat)
    requires a > 0 && b > 0 && r1 < a && r2 < b
    requires m == q * a + r1 && q == q2 * b + r2
    ensures m == q2 * (a * b) + (r2 * a + r1) && r2 * a + r1 < a * b
  {
    calc {
      m;
      (q2 * b + r2) * a + r1;
      { assert (q2 * b + r2) * a == (q2 * b) * a + r2 * a; }
      (q2 * b) * a + r2 * a + r1;
      { assert (q2 * b) * a == q2 * (a * b); }
      q2 * (a * b) + (r2 * a + r1);
    }
    MulAtLeast(b - r2, a);
    assert (b - r2) * a == b * a - r2 * a;
  }

  /** The combination number of a + and * choice, read as binary. */
  function Number2(ops: seq<Op>): nat {
    if |ops| == 0 then 0 else (if ops[0] == Mul then 1 else 0) + 2 * Number2(ops[1..])
  }

  /** Every + and * choice is some combination number below 2^k. */
  lemma {:induction false} BitsOpsOnto(ops: seq<Op>)
    requires NoCon(ops)
    ensures Number2(ops) < Pow(2, |ops|) && BitsOps(Number2(ops), |ops|) == ops
  {
    if |ops| > 0 {
      BitsOpsOnto(ops[1..]);
      var n := Number2(ops);
      var b := if ops[0] == Mul then 1 else 0;
      assert n % 2 == b && n / 2 == Number2(ops[1..]);
      assert ops == [ops[0]] + ops[1..];
    }
  }

  /** The inner loop of `solve_task` for combination m. */
  function EvalBits(numbers: seq<int>, m: nat): int
    requires |numbers| > 0
  {
    var ops := BitsOps(m, |numbers| - 1);
    EvalSucceeds(numbers[0], numbers[1..], ops);
    Eval(numbers[0], numbers[1..], ops).value
  }

  /** The outer loop of `solve_task` from combination n on: true when one
      of the remaining combinations hits the result. */
  function Scan(numbers: seq<int>, result: int, n: nat): (r: bool)
    requires |numbers| > 0 && n <= Pow(2, |numbers| - 1)
    ensures r <==> exists m :: n <= m < Pow(2, |numbers| - 1) && EvalBits(numbers, m) == result
    decreases Pow(2, |numbers| - 1) - n
  {
    if n == Pow(2, |numbers| - 1) then false
    else if EvalBits(numbers, n) == result then true
    else Scan(numbers, result, n + 1)
  }

  /** `solve_task`: no numbers solve only 0; more than 60 panic (the shift
      would overflow); otherwise every + and * combination is tried. */
  function SolveTask(task: Task): (r: Result<bool, Dec7Error>)
    ensures |task.numbers| == 0 ==> r == Success(task.result == 0)
    ensures |task.numbers| > 60 ==> r == Failure(TooManyNumbers)
    ensures 0 < |task.numbers| <= 60 ==> r == Success(Solvable(task, false))
  {
    var num := |task.numbers|;
    if num == 0 then Success(task.result == 0)
    else if num > 60 then Failure(TooManyNumbers)
    else
      var found := Scan(task.numbers, task.result, 0);
      assert found <==> Solvable(task, false) by {
        ScanMeansSolvable(task);
      }
      Success(found)
  }

  lemma ScanMeansSolvable(task: Task)
    requires |task.numbers| > 0
    ensures Scan(task.numbers, task.result, 0) <==> Solvable(task, false)
  {
    var numbers := task.numbers;
    var k := |numbers| - 1;
    if Scan(numbers, task.result, 0) {
      var m :| 0 <= m < Pow(2, k) && EvalBits(numbers, m) == task.result;
      var ops := BitsOps(m, k);
      assert Eval(numbers[0], numbers[1..], ops) == Success(task.result);
    }
    if Solvable(task, false) {
      var ops :| |ops| == k && NoCon(ops) && Eval(numbers[0], numbers[1..], ops) == Success(task.result);
      BitsOpsOnto(ops);
      assert EvalBits(numbers, Number2(ops)) == task.result;
    }
  }

  /** The rank of an operator in the counter of `solve_task2`. */
  function Ord(op: Op): nat {
    match op
    case Add => 0
    case Mul => 1
    case Con => 2
  }

  /** The counter value of a combination: base 3, first position least
      significant. */
  function Value(comb: seq<Op>): nat {
    if |comb| == 0 then 0 else Ord(comb[0]) + 3 * Value(comb[1..])
  }

  lemma {:induction false} ValueBound(comb: seq<Op>)
    ensures Value(comb) < Pow(3, |comb|)
  {
    if |comb| > 0 {
      ValueBound(comb[1..]);
    }
  }

  /** Different combinations of one length have different values. */
  lemma {:induction false} ValueInjective(a: seq<Op>, b: seq<Op>)
    requires |a| == |b| && Value(a) == Value(b)
    ensures a == b
  {
    if |a| > 0 {
      assert Ord(a[0]) == Value(a) % 3 && Ord(b[0]) == Value(b) % 3;
      assert Value(a[1..]) == Value(b[1..]);
      ValueInjective(a[1..], b[1..]);
      assert a == [a[0]] + a[1..] && b == [b[0]] + b[1..];
    }
  }

  /** `inc`: steps the counter, carrying from position 0 upwards; false
      when it wraps from the last combination back to all +. The source's
      loop over `inc_pos` is the recursion on the tail here. An empty
      combination panics on its first index. */
  function Inc(comb: seq<Op>): (r: Result<(seq<Op>, bool), Dec7Error>)
    ensures r.Failure? <==> |comb| == 0
    ensures r.Success? ==> |r.value.0| == |comb|
    ensures r.Success? && r.value.1 ==> Value(r.value.0) == Value(comb) + 1
    ensures r.Success? && !r.value.1 ==> Value(comb) + 1 == Pow(3, |comb|) && Value(r.value.0) == 0
  {
    if |comb| == 0 then Failure(IndexOutOfBounds)
    else match comb[0]
      case Add => Success(([Mul] + comb[1..], true))
      case Mul => Success(([Con] + comb[1..], true))
      case Con =>
        if |comb| == 1 then Success(([Add], false))
        else
          var t := Inc(comb[1..]).value;
          assert ([Add] + t.0)[1..] == t.0;
          Success(([Add] + t.0, t.1))
  }

  /** `inc` with the empty combination treated as already exhausted. */
  function IncChecked(comb: seq<Op>): (r: Result<(seq<Op>, bool), Dec7Error>)
    ensures r.Success?
    ensures |comb| > 0 ==> r == Inc(comb)
    ensures |comb| == 0 ==> r == Success((comb, false))
  {
    if |comb| == 0 then Success((comb, false)) else Inc(comb)
  }

  /** No combination of the numbers' length with a value below v hits the
      result: all of them evaluate, to something else. */
  ghost predicate MissedBelow(numbers: seq<int>, result: int, v: nat)
    requires |numbers| > 0
  {
    forall ops: seq<Op> :: |ops| == |numbers| - 1 && Value(ops) < v ==>
      Eval(numbers[0], numbers[1..], ops).Success? && Eval(numbers[0], numbers[1..], ops).value != result
  }

  /** The loop of `solve_task2` from combination comb on; `checked` picks
      the corrected `inc`. */
  function Search(numbers: seq<int>, result: int, comb: seq<Op>, checked: bool): (r: Result<bool, Dec7Error>)
    requires |numbers| > 0 && |comb| == |numbers| - 1
    ensures r == Success(true) ==>
      exists ops: seq<Op> :: |ops| == |numbers| - 1 && Eval(numbers[0], numbers[1..], ops) == Success(result)
    ensures r == Success(false) && MissedBelow(numbers, result, Value(comb)) ==>
      MissedBelow(numbers, result, Pow(3, |numbers| - 1))
    ensures r == Failure(Log10OfNonPositive) ==> !Positive(numbers[1..])
    ensures r == Failure(IndexOutOfBounds) ==> !checked && |numbers| == 1
    ensures r.Failure? ==> r == Failure(Log10OfNonPositive) || r == Failure(IndexOutOfBounds)
    ensures Positive(numbers[1..]) && (checked || |numbers| > 1) ==> r.Success?
    decreases Pow(3, |comb|) - Value(comb)
  {
    ValueBound(comb);
    var e := Eval(numbers[0], numbers[1..], comb);
    if e.Failure? then
      assert !Positive(numbers[1..]) by {
        var j :| 0 <= j < |comb| && comb[j] == Con && numbers[1..][j] <= 0;
      }
      Failure(Log10OfNonPositive)
    else if e.value == result then Success(true)
    else
      var step := if checked then IncChecked(comb) else Inc(comb);
      if step.Failure? then Failure(IndexOutOfBounds)
      else if !step.value.1 then
        assert MissedBelow(numbers, result, Value(comb)) ==> MissedBelow(numbers, result, Pow(3, |numbers| - 1)) by {
          if MissedBelow(numbers, result, Value(comb)) {
            MissedStep(numbers, result, comb);
            assert |comb| > 0 ==> Value(comb) + 1 == Pow(3, |comb|);
          }
        }
        Success(false)
      else
        var r := Search(numbers, result, step.value.0, checked);
        assert r == Success(false) && MissedBelow(numbers, result, Value(comb)) ==>
          MissedBelow(numbers, result, Pow(3, |numbers| - 1)) by {
          if MissedBelow(numbers, result, Value(comb)) {
            MissedStep(numbers, result, comb);
          }
        }
        r
  }

  /** A combination that evaluates to something else extends the range of
      misses by one. */
  lemma MissedStep(numbers: seq<int>, result: int, comb: seq<Op>)
    requires |numbers| > 0 && |comb| == |numbers| - 1
    requires MissedBelow(numbers, result, Value(comb))
    requires Eval(numbers[0], numbers[1..], comb).Success?
    requires Eval(numbers[0], numbers[1..], comb).value != result
    ensures MissedBelow(numbers, result, Value(comb) + 1)
  {
    forall ops: seq<Op> | |ops| == |numbers| - 1 && Value(ops) < Value(comb) + 1
      ensures Eval(numbers[0], numbers[1..], ops).Success? && Eval(numbers[0], numbers[1..], ops).value != result
    {
      if Value(ops) == Value(comb) {
        ValueInjective(ops, comb);
      }
    }
  }

  /** `solve_task2` with `inc` guarded against the empty combination: no
      numbers solve only 0; otherwise every +, * and || combination is tried in
      counter order until one hits, and a concatenation with a number that
      is not positive panics. */
  function SolveTask2(task: Task): (r: Result<bool, Dec7Error>)
    ensures |task.numbers| == 0 ==> r == Success(task.result == 0)
    ensures |task.numbers| > 0 && r.Success? ==> r.value == Solvable(task, true)
    ensures |task.numbers| > 0 && Positive(task.numbers[1..]) ==> r.Success?
    ensures r.Failure? ==> r.error == Log10OfNonPositive
  {
    var num := |task.numbers|;
    if num == 0 then Success(task.result == 0)
    else
      var start := seq(num - 1, _ => Add);
      StartValue(start);
      var r := Search(task.numbers, task.result, start, true);
      assert r.Success? ==> r.value == Solvable(task, true) by {
        if r == Success(false) {
          NotSolvable(task);
        }
      }
      r
  }

  lemma {:induction false} StartValue(start: seq<Op>)
    requires forall j :: 0 <= j < |start| ==> start[j] == Add
    ensures Value(start) == 0
  {
    if |start| > 0 {
      StartValue(start[1..]);
    }
  }

  lemma NotSolvable(task: Task)
    requires |task.numbers| > 0
    requires MissedBelow(task.numbers, task.result, Pow(3, |task.numbers| - 1))
    ensures !Solvable(task, true)
  {
    if Solvable(task, true) {
      var ops :| |ops| == |task.numbers| - 1 && Eval(task.numbers[0], task.numbers[1..], ops) == Success(task.result);
      ValueBound(ops);
    }
  }

  /** `solve_task2` as the source writes it: with a single number that is
      not the result, `inc` indexes the empty combination and panics. */
  function SolveTask2AsWritten(task: Task): (r: Result<bool, Dec7Error>)
    ensures |task.numbers| != 1 ==> r == SolveTask2(task)
    ensures |task.numbers| == 1 ==> r == if task.numbers[0] == task.result then Success(true) else Failure(IndexOutOfBounds)
    ensures r.Success? ==> r == SolveTask2(task)
  {
    var num := |task.numbers|;
    if num == 0 then Success(task.result == 0)
    else
      var start := seq(num - 1, _ => Add);
      assert num == 1 ==> Eval(task.numbers[0], task.numbers[1..], []) == Success(task.numbers[0]);
      assert num > 1 ==> Search(task.numbers, task.result, start, false) == Search(task.numbers, task.result, start, true) by {
        if num > 1 {
          SearchCheckedIrrelevant(task.numbers, task.result, start);
        }
      }
      Search(task.numbers, task.result, start, false)
  }

  /** With at least one operator the guard never fires. */
  lemma {:induction false} SearchCheckedIrrelevant(numbers: seq<int>, result: int, comb: seq<Op>)
    requires |numbers| > 1 && |comb| == |numbers| - 1
    ensures Search(numbers, result, comb, false) == Search(numbers, result, comb, true)
    decreases Pow(3, |comb|) - Value(comb)
  {
    ValueBound(comb);
    var e := Eval(numbers[0], numbers[1..], comb);
    if e.Success? && e.value != result {
      var step := Inc(comb);
      if step.value.1 {
        SearchCheckedIrrelevant(numbers, result, step.value.0);
      }
    }
  }

  /** Task 5: [3] is simply unsolvable, but the source panics on it. */
  lemma SingleNumberPanics()
    ensures SolveTask2AsWritten(Task(5, [3])) == Failure(IndexOutOfBounds)
    ensures SolveTask2(Task(5, [3])) == Success(false)
  {
    assert Eval(3, [], []) == Success(3);
    assert seq(0, _ => Add) == [];
  }

  /** Whether a task counts, for part one or part two, when it can be
      decided. */
  ghost predicate Solved(task: Task, sec: bool) {
    if |task.numbers| == 0 then task.result == 0 else Solvable(task, sec)
  }

  ghost function SolvedSum(tasks: seq<Task>, sec: bool): int {
    if |tasks| == 0 then 0
    else SolvedSum(tasks[..|tasks| - 1], sec) + (if Solved(tasks[|tasks| - 1], sec) then tasks[|tasks| - 1].result else 0)
  }

  /** The tasks the chosen part can decide without a panic. */
  predicate Decidable(task: Task, sec: bool) {
    if sec then |task.numbers| == 0 || Positive(task.numbers[1..]) else |task.numbers| <= 60
  }

  /** `dec7_count`: the sum of the results of the solvable tasks; a panic in
      any task is the panic of the whole. */
  function Dec7Count(tasks: seq<Task>, sec: bool): (r: Result<int, Dec7Error>)
    ensures r.Success? ==> r.value == SolvedSum(tasks, sec)
    ensures (forall i :: 0 <= i < |tasks| ==> Decidable(tasks[i], sec)) ==> r.Success?
  {
    if |tasks| == 0 then Success(0)
    else
      var sum :- Dec7Count(tasks[..|tasks| - 1], sec);
      var task := tasks[|tasks| - 1];
      var solved :- if sec then SolveTask2(task) else SolveTask(task);
      Success(sum + if solved then task.result else 0)
  }

  /** The tasks `solve_task2` as written decides: a single number must also
      be the result, or `inc` panics. */
  predicate DecidableAsWritten(task: Task, sec: bool) {
    Decidable(task, sec) && (sec && |task.numbers| == 1 ==> task.numbers[0] == task.result)
  }

  /** `dec7_count` as the source writes it: part two calls `solve_task2` as
      written, so a task with a single number that misses the result panics.
      Wherever it does not panic it agrees with the corrected count, and part
      one is unaffected. */
  function Dec7CountAsWritten(tasks: seq<Task>, sec: bool): (r: Result<int, Dec7Error>)
    ensures r.Success? ==> r.value == SolvedSum(tasks, sec)
    ensures (forall i :: 0 <= i < |tasks| ==> DecidableAsWritten(tasks[i], sec)) ==> r.Success?
    ensures r.Success? ==> r == Dec7Count(tasks, sec)
    ensures !sec ==> r == Dec7Count(tasks, sec)
    ensures r == Failure(IndexOutOfBounds) ==>
      sec && exists i :: 0 <= i < |tasks| && |tasks[i].numbers| == 1 && tasks[i].numbers[0] != tasks[i].result
  {
    if |tasks| == 0 then Success(0)
    else
      var sum :- Dec7CountAsWritten(tasks[..|tasks| - 1], sec);
      var task := tasks[|tasks| - 1];
      var solved :- if sec then SolveTask2AsWritten(task) else SolveTask(task);
      Success(sum + if solved then task.result else 0)
  }

  /** The single task 5: 3 makes the whole count panic as written, while the
      corrected count adds nothing for it. */
  lemma CountSingleNumberPanics()
    ensures Dec7CountAsWritten([Task(5, [3])], true) == Failure(IndexOutOfBounds)
    ensures Dec7Count([Task(5, [3])], true) == Success(0)
  {
    SingleNumberPanics();
    assert [Task(5, [3])][..0] == [];
  }
}
