/** Plutonian stones (2024/Test0/src/dec11.rs): every blink replaces each
    stone by one or two stones; the count after many blinks is computed both
    by building the whole row and by a memoised count per stone. */
module Dec11 {
  import opened Arith

  /** The rule for one stone: 0 becomes 1; a number with an even count of
      decimal digits splits into its high and low halves; anything else
      (negative numbers included, which count as one digit) is multiplied
      by 2024. */
  function Blink(num: int): (r: seq<int>)
    ensures 1 <= |r| <= 2
    ensures num == 0 ==> r == [1]
    ensures num != 0 && (num < 10 || NumDigits(num) % 2 == 1) ==> r == [num * 2024]
  {
    if num == 0 then [1]
    else
      var numDigits := if num < 10 then 1 else NumDigits(num);
      if numDigits % 2 == 0 then
        var p := Pow(10, numDigits / 2);
        [num / p, num % p]
      else [num * 2024]
  }

  /** A number with an even count 2h of digits splits into a high half of
      exactly h digits and a low half below 10^h that put back together
      give the number. */
  lemma BlinkSplits(num: int)
    requires num >= 10 && NumDigits(num) % 2 == 0
    ensures var r := Blink(num); var h := NumDigits(num) / 2;
      && |r| == 2
      && r[0] * Pow(10, h) + r[1] == num
      && 0 <= r[1] < Pow(10, h)
      && 0 <= r[0] && NumDigits(r[0]) == h
  {
    var d := NumDigits(num);
    var p := Pow(10, d / 2);
    assert Blink(num) == [num / p, num % p];
    DivMod(num, p);
    SplitHalves(num, d);
  }

  /** The high half of a 2h-digit number has exactly h digits. */
  lemma SplitHalves(num: nat, d: nat)
    requires d >= 2 && d % 2 == 0 && NumDigits(num) == d
    ensures NumDigits(num / Pow(10, d / 2)) == d / 2
  {
    var h := d / 2;
    var p := Pow(10, h);
    PowAdd(10, h - 1, h);
    PowAdd(10, h, h);
    assert Pow(10, d - 1) == Pow(10, h - 1) * p;
    assert Pow(10, d) == Pow(10, h) * p;
    var q := num / p;
    assert Pow(10, h - 1) <= q by {
      DivLower(num, p, Pow(10, h - 1));
    }
    assert q < Pow(10, h) by {
      DivUpper(num, p, Pow(10, h));
    }
    NumDigitsUnique(q, h);
  }

  lemma DivLower(n: nat, p: nat, k: nat)
    requires p > 0 && k * p <= n
    ensures k <= n / p
  {
    var q := n / p;
    assert n == q * p + n % p;
    assert n < (q + 1) * p;
  }

  lemma DivUpper(n: nat, p: nat, k: nat)
    requires p > 0 && n < k * p
    ensures n / p < k
  {
    var q := n / p;
    assert n == q * p + n % p;
    assert q * p <= n;
  }

  /** `compute_step`: every stone blinks, and the results are laid out in
      order. */
  function ComputeStep(nums: seq<int>): (r: seq<int>)
    ensures |nums| <= |r| <= 2 * |nums|
  {
    if |nums| == 0 then [] else ComputeStep(nums[..|nums| - 1]) + Blink(nums[|nums| - 1])
  }

  /** A row blinks stone by stone, so two rows side by side blink
      independently. */
  lemma {:induction false} ComputeStepAppend(a: seq<int>, b: seq<int>)
    ensures ComputeStep(a + b) == ComputeStep(a) + ComputeStep(b)
    decreases |b|
  {
    if |b| > 0 {
      var b' := b[..|b| - 1];
      assert (a + b)[..|a + b| - 1] == a + b';
      ComputeStepAppend(a, b');
    } else {
      assert a + b == a;
    }
  }

  /** The row after `steps` blinks. */
  ghost function Blinks(nums: seq<int>, steps: nat): seq<int>
    decreases steps
  {
    if steps == 0 then nums else Blinks(ComputeStep(nums), steps - 1)
  }

  /** One more blink is one more `compute_step` at the end. */
  lemma {:induction false} BlinksSucc(nums: seq<int>, steps: nat)
    ensures Blinks(nums, steps + 1) == ComputeStep(Blinks(nums, steps))
    decreases steps
  {
    if steps > 0 {
      BlinksSucc(ComputeStep(nums), steps - 1);
    }
  }

  /** Blinking never removes stones. */
  lemma {:induction false} BlinksGrow(nums: seq<int>, steps: nat)
    ensures |Blinks(nums, steps)| >= |nums|
    decreases steps
  {
    if steps > 0 {
      BlinksGrow(ComputeStep(nums), steps - 1);
    }
  }

  /** f applied `steps` times. */
  ghost function Iterate(f: seq<int> -> seq<int>, nums: seq<int>, steps: nat): seq<int>
    decreases steps
  {
    if steps == 0 then nums else Iterate(f, f(nums), steps - 1)
  }

  /** Iterating a map that distributes over concatenation distributes too. */
  lemma {:induction false} IterateAppend(f: seq<int> -> seq<int>, a: seq<int>, b: seq<int>, steps: nat)
    requires forall x, y :: f(x + y) == f(x) + f(y)
    ensures Iterate(f, a + b, steps) == Iterate(f, a, steps) + Iterate(f, b, steps)
    decreases steps
  {
    if steps > 0 {
      IterateAppend(f, f(a), f(b), steps - 1);
    }
  }

  /** `compute_step` as a value to iterate. */
  function StepRow(nums: seq<int>): seq<int> {
    ComputeStep(nums)
  }

  lemma {:induction false} BlinksIterate(nums: seq<int>, steps: nat)
    ensures Blinks(nums, steps) == Iterate(StepRow, nums, steps)
    decreases steps
  {
    if steps > 0 {
      BlinksIterate(ComputeStep(nums), steps - 1);
    }
  }

  /** Stones never interact: the row of a concatenation is the
      concatenation of the rows. */
  lemma BlinksAppend(a: seq<int>, b: seq<int>, steps: nat)
    ensures Blinks(a + b, steps) == Blinks(a, steps) + Blinks(b, steps)
  {
    forall x, y ensures StepRow(x + y) == StepRow(x) + StepRow(y) {
      ComputeStepAppend(x, y);
    }
    IterateAppend(StepRow, a, b, steps);
    BlinksIterate(a + b, steps);
    BlinksIterate(a, steps);
    BlinksIterate(b, steps);
  }

  /** `compute_result`: blinks `steps` times (no time at all when steps is
      not positive). */
  method ComputeResult(nums: seq<int>, steps: int) returns (result: seq<int>)
    ensures result == Blinks(nums, if steps < 0 then 0 else steps)
    ensures |result| >= |nums|
  {
    result := nums;
    var step := 0;
    while step < steps
      invariant 0 <= step && (steps >= 0 ==> step <= steps) && (steps < 0 ==> step == 0)
      invariant result == Blinks(nums, step)
    {
      BlinksSucc(nums, step);
      result := ComputeStep(result);
      step := step + 1;
    }
    BlinksGrow(nums, step);
  }

  /** The number of stones one stone turns into after `steps` blinks. */
  ghost function Stones(num: int, steps: nat): nat {
    |Blinks([num], steps)|
  }

  /** A cache whose every entry holds the true count for its key. */
  ghost predicate CacheSound(cache: map<(int, nat), nat>) {
    forall k :: k in cache ==> cache[k] == Stones(k.0, k.1)
  }

  /** `memoize_step`: the count for one stone, looked up in the cache or
      computed from the stones of its first blink and then stored. */
  function MemoizeStep(num: int, steps: nat, cache: map<(int, nat), nat>): (r: (nat, map<(int, nat), nat>))
    ensures steps == 0 ==> r.0 == 1
    ensures cache.Keys <= r.1.Keys
    ensures CacheSound(cache) ==> r.0 == Stones(num, steps) && CacheSound(r.1)
    decreases steps, 0, 0
  {
    if steps == 0 then (1, cache)
    else if (num, steps) in cache then (cache[(num, steps)], cache)
    else
      var rocks := Blink(num);
      var (count, cache') := MemoizeRow(rocks, steps - 1, cache);
      assert CacheSound(cache) ==> count == Stones(num, steps) by {
        if CacheSound(cache) {
          assert Blinks([num], steps) == Blinks(rocks, steps - 1) by {
            assert ComputeStep([num]) == rocks by {
              assert [num][..0] == [];
            }
          }
        }
      }
      (count, cache'[(num, steps) := count])
  }

  /** The loop of `memoize_step` over the stones of the first blink, which
      threads the cache from one stone to the next. */
  function MemoizeRow(rocks: seq<int>, steps: nat, cache: map<(int, nat), nat>): (r: (nat, map<(int, nat), nat>))
    ensures cache.Keys <= r.1.Keys
    ensures CacheSound(cache) ==> r.0 == |Blinks(rocks, steps)| && CacheSound(r.1)
    decreases steps, 1, |rocks|
  {
    if |rocks| == 0 then
      assert CacheSound(cache) ==> |Blinks(rocks, steps)| == 0 by {
        BlinksEmpty(steps);
      }
      (0, cache)
    else
      var (first, cache1) := MemoizeStep(rocks[0], steps, cache);
      var (rest, cache2) := MemoizeRow(rocks[1..], steps, cache1);
      assert CacheSound(cache) ==> first + rest == |Blinks(rocks, steps)| by {
        assert rocks == [rocks[0]] + rocks[1..];
        BlinksAppend([rocks[0]], rocks[1..], steps);
      }
      (first + rest, cache2)
  }

  lemma {:induction false} BlinksEmpty(steps: nat)
    ensures Blinks([], steps) == []
    decreases steps
  {
    if steps > 0 {
      assert ComputeStep([]) == [];
      BlinksEmpty(steps - 1);
    }
  }

  /** The stones of one more starting stone add up. */
  lemma CountPrefix(nums: seq<int>, i: nat, steps: nat)
    requires i < |nums|
    ensures |Blinks(nums[..i + 1], steps)| == |Blinks(nums[..i], steps)| + Stones(nums[i], steps)
  {
    assert nums[..i + 1] == nums[..i] + [nums[i]];
    BlinksAppend(nums[..i], [nums[i]], steps);
  }

  /** `compute_result2`: the total count over a row, with one cache shared by
      all stones; it agrees with the length of the row `compute_result`
      builds. */
  method ComputeResult2(nums: seq<int>, steps: nat) returns (rockCount: nat)
    ensures rockCount == |Blinks(nums, steps)|
  {
    var cache: map<(int, nat), nat> := map[];
    rockCount := 0;
    var i := 0;
    BlinksEmpty(steps);
    while i < |nums|
      invariant 0 <= i <= |nums|
      invariant CacheSound(cache)
      invariant rockCount == |Blinks(nums[..i], steps)|
    {
      var (count, cache') := MemoizeStep(nums[i], steps, cache);
      CountPrefix(nums, i, steps);
      rockCount := rockCount + count;
      cache := cache';
      i := i + 1;
    }
    assert nums[..|nums|] == nums;
  }
}
