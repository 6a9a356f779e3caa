/** Battery banks (aoc2025/src/dec3.rs): from a row of digits, switch on k
    batteries, keeping their order, so that the k digits read as the largest
    possible number. The source picks greedily: the leftmost largest digit
    that still leaves room for the remaining k - 1, then recurses on what
    follows it. */
module Dec3 {
  import opened Wrappers
  import opened Arith

  /** Entry j is not larger than v. */
  predicate AtMost(s: seq<int>, j: nat, v: int)
    requires j < |s|
  {
    s[j] <= v
  }

  /** Entry j is not larger than entry i. */
  predicate NotAbove(bank: seq<int>, j: nat, i: nat)
    requires j < |bank| && i < |bank|
  {
    bank[j] <= bank[i]
  }

  /** Entry j is smaller than entry i. */
  predicate Below(bank: seq<int>, j: nat, i: nat)
    requires j < |bank| && i < |bank|
  {
    bank[j] < bank[i]
  }

  /** The leftmost largest of the first n entries, scanned from the left. */
  function LeftmostMax(bank: seq<int>, n: nat): (i: nat)
    requires 0 < n <= |bank|
    ensures i < n
    ensures forall j :: 0 <= j < n ==> NotAbove(bank, j, i)
    ensures forall j :: 0 <= j < i ==> Below(bank, j, i)
    decreases n
  {
    if n == 1 then 0
    else
      var i := LeftmostMax(bank, n - 1);
      var r := if bank[n - 1] > bank[i] then n - 1 else i;
      assert forall j :: 0 <= j < n ==> NotAbove(bank, j, r) by {
        forall j | 0 <= j < n ensures NotAbove(bank, j, r) {
          if j < n - 1 {
            assert NotAbove(bank, j, i);
          }
        }
      }
      assert forall j :: 0 <= j < r ==> Below(bank, j, r) by {
        forall j | 0 <= j < r ensures Below(bank, j, r) {
          if j < i {
            assert Below(bank, j, i);
          } else if j < n - 1 {
            assert NotAbove(bank, j, i);
          }
        }
      }
      r
  }

  /** The largest entry (`iter().max()`, defined on a non-empty slice). */
  function Max(s: seq<int>): (m: int)
    requires |s| > 0
    ensures m in s
    ensures forall i :: 0 <= i < |s| ==> AtMost(s, i, m)
  {
    var i := LeftmostMax(s, |s|);
    assert forall j :: 0 <= j < |s| ==> AtMost(s, j, s[i]) by {
      forall j | 0 <= j < |s| ensures AtMost(s, j, s[i]) {
        assert NotAbove(s, j, i);
      }
    }
    s[i]
  }

  /** Entry j is not v. */
  predicate Differs(s: seq<int>, j: nat, v: int)
    requires j < |s|
  {
    s[j] != v
  }

  /** The first index below n holding v, or n when there is none. */
  function FirstIn(s: seq<int>, v: int, n: nat): (r: nat)
    requires n <= |s|
    ensures r <= n
    ensures r < n ==> s[r] == v
    ensures forall j :: 0 <= j < r ==> Differs(s, j, v)
  {
    if n == 0 then 0
    else
      var p := FirstIn(s, v, n - 1);
      if p < n - 1 then p
      else if s[n - 1] == v then n - 1
      else
        assert forall j :: 0 <= j < n ==> Differs(s, j, v) by {
          forall j | 0 <= j < n ensures Differs(s, j, v) {
            if j < n - 1 {
              assert Differs(s, j, v);
            }
          }
        }
        n
  }

  /** The first index holding v (`iter().position(..)`, unwrapped: v is
      known to occur). */
  function Position(s: seq<int>, v: int): (i: nat)
    requires v in s
    ensures i < |s| && s[i] == v
    ensures forall j :: 0 <= j < i ==> Differs(s, j, v)
  {
    var r := FirstIn(s, v, |s|);
    assert r < |s| by {
      var k :| 0 <= k < |s| && s[k] == v;
      assert k < r ==> Differs(s, k, v);
    }
    r
  }

  /** `bank_voltage`: the best two-digit number. It panics (None here) when
      the bank has fewer than two digits: the length minus one underflows or
      the prefix is empty. */
  function BankVoltage(bank: seq<int>): (r: Option<int>)
    ensures r.Some? <==> |bank| >= 2
  {
    if |bank| < 2 then None
    else
      var prefix := bank[..|bank| - 1];
      var bestStart := Max(prefix);
      var bestIndex := Position(prefix, bestStart);
      var bestEnd := Max(bank[bestIndex + 1..]);
      Some(bestStart * 10 + bestEnd)
  }

  /** The index `bank_voltage2` picks to lead k >= 2 digits: the leftmost
      largest among the first |bank| - k + 1 entries, those that leave k - 1
      entries after them. */
  function Lead(bank: seq<int>, k: nat): (i: nat)
    requires 2 <= k <= |bank|
    ensures i <= |bank| - k
    ensures forall j :: 0 <= j <= |bank| - k ==> NotAbove(bank, j, i)
    ensures forall j :: 0 <= j < i ==> Below(bank, j, i)
  {
    LeftmostMax(bank, |bank| - k + 1)
  }

  /** The source finds the lead with a maximum and then the position of its
      first occurrence; that is the same index. */
  lemma LeadIsMaxThenPosition(bank: seq<int>, k: nat)
    requires 2 <= k <= |bank|
    ensures var prefix := bank[..|bank| - k + 1];
      Lead(bank, k) == Position(prefix, Max(prefix))
  {
    var prefix := bank[..|bank| - k + 1];
    var m := Max(prefix);
    var p := Position(prefix, m);
    var i := Lead(bank, k);
    assert NotAbove(bank, p, i);
    assert AtMost(prefix, i, m);
    assert p < i ==> Below(bank, p, i);
    assert i < p ==> Differs(prefix, i, m);
  }

  /** `bank_voltage2`: the best number of k digits. For k = 1 it is the
      largest digit; otherwise the digit at `Lead` comes first and the rest
      is chosen from what follows it. The source panics (None here) unless
      1 <= k <= |bank|. */
  function BankVoltage2(bank: seq<int>, k: nat): (r: Option<int>)
    ensures r.Some? <==> 1 <= k <= |bank|
    decreases k
  {
    if k == 1 then
      if |bank| == 0 then None else Some(Max(bank))
    else if k == 0 || |bank| < k then None
    else
      var bestIndex := Lead(bank, k);
      var bestEnd := BankVoltage2(bank[bestIndex + 1..], k - 1);
      Some(bank[bestIndex] * Pow(10, k - 1) + bestEnd.value)
  }

  /** The two-digit version is the general one with k = 2, failures
      included. */
  lemma BankVoltageIsK2(bank: seq<int>)
    ensures BankVoltage(bank) == BankVoltage2(bank, 2)
  {
    if |bank| >= 2 {
      var prefix := bank[..|bank| - 1];
      var i := Position(prefix, Max(prefix));
      LeadIsMaxThenPosition(bank, 2);
      assert BankVoltage2(bank[i + 1..], 1) == Some(Max(bank[i + 1..]));
      assert Pow(10, 1) == 10;
    }
  }

  lemma MulLe(a: int, b: int, p: nat)
    requires a <= b
    ensures a * p <= b * p
  {
    assert (b - a) * p >= 0;
  }

  predicate Digits(s: seq<int>) {
    forall i :: 0 <= i < |s| ==> 0 <= s[i] <= 9
  }

  lemma DigitsOfSuffix(bank: seq<int>, n: nat)
    requires Digits(bank) && n <= |bank|
    ensures Digits(bank[n..])
  {
    var tail := bank[n..];
    forall j | 0 <= j < |tail| ensures 0 <= tail[j] <= 9 {
      assert tail[j] == bank[n + j];
    }
  }

  /** The number the digits ds read as, most significant first. */
  function Number(ds: seq<int>): int {
    if |ds| == 0 then 0 else ds[0] * Pow(10, |ds| - 1) + Number(ds[1..])
  }

  lemma {:induction false} NumberBounds(ds: seq<int>)
    requires Digits(ds)
    ensures 0 <= Number(ds) < Pow(10, |ds|)
  {
    if |ds| > 0 {
      NumberBounds(ds[1..]);
      NumberUnfold(ds, |ds|);
      PowStep(10, |ds|);
      DigitStep(ds[0], Pow(10, |ds| - 1), Number(ds[1..]), Number(ds), Pow(10, |ds|));
    }
  }

  /** A digit in front of a number below p gives a number below 10 p. */
  lemma DigitStep(d: int, p: int, x: int, u: int, q: int)
    requires 0 <= d <= 9 && 0 <= x < p && u == d * p + x && q == 10 * p
    ensures 0 <= u < q
  {
    assert d * p <= 9 * p;
  }

  /** a keeps some of the entries of b, in order. */
  predicate IsSubseq(a: seq<int>, b: seq<int>)
    decreases |b|
  {
    if |a| == 0 then true
    else if |b| == 0 then false
    else (a[0] == b[0] && IsSubseq(a[1..], b[1..])) || IsSubseq(a, b[1..])
  }

  lemma {:induction false} SubseqLength(a: seq<int>, b: seq<int>)
    requires IsSubseq(a, b)
    ensures |a| <= |b|
    decreases |b|
  {
    if |a| > 0 {
      if a[0] == b[0] && IsSubseq(a[1..], b[1..]) {
        SubseqLength(a[1..], b[1..]);
      } else {
        SubseqLength(a, b[1..]);
      }
    }
  }

  /** A non-empty subsequence starts at some entry i of b and continues in
      what follows it. */
  lemma {:induction false} SubseqFirst(a: seq<int>, b: seq<int>) returns (i: nat)
    requires IsSubseq(a, b) && |a| > 0
    ensures i < |b| && b[i] == a[0] && IsSubseq(a[1..], b[i + 1..])
    decreases |b|
  {
    if a[0] == b[0] && IsSubseq(a[1..], b[1..]) {
      i := 0;
    } else {
      var j := SubseqFirst(a, b[1..]);
      assert b[1..][j + 1..] == b[j + 2..];
      i := j + 1;
    }
  }

  /** A subsequence of a suffix is a subsequence of the whole. */
  lemma {:induction false} SubseqOfSuffix(a: seq<int>, b: seq<int>, j: nat)
    requires j <= |b| && IsSubseq(a, b[j..])
    ensures IsSubseq(a, b)
    decreases j
  {
    if j > 0 {
      assert b[1..][j - 1..] == b[j..];
      SubseqOfSuffix(a, b[1..], j - 1);
      if |a| > 0 {
        assert |b| > 0;
      }
    }
  }

  /** b itself with its first entry kept, the rest chosen from the tail. */
  lemma SubseqCons(x: int, a: seq<int>, b: seq<int>, i: nat)
    requires i < |b| && b[i] == x && IsSubseq(a, b[i + 1..])
    ensures IsSubseq([x] + a, b)
  {
    var c := [x] + a;
    assert c[1..] == a;
    assert IsSubseq(c, b[i..]) by {
      assert b[i..][1..] == b[i + 1..];
    }
    SubseqOfSuffix(c, b, i);
  }

  /** The greedy choice is optimal: no k digits kept in order read as a
      larger number than `bank_voltage2` returns. */
  lemma {:induction false} BankVoltage2IsMaximal(bank: seq<int>, k: nat, ds: seq<int>)
    requires Digits(bank) && 1 <= k <= |bank|
    requires IsSubseq(ds, bank) && |ds| == k
    ensures Number(ds) <= BankVoltage2(bank, k).value
    decreases k, 1
  {
    var i := SubseqFirst(ds, bank);
    SubseqLength(ds[1..], bank[i + 1..]);
    if k == 1 {
      assert Number(ds) == ds[0] * Pow(10, 0) + Number([]);
      assert Number(ds) == bank[i];
      assert AtMost(bank, i, Max(bank));
    } else {
      var lead := Lead(bank, k);
      assert NotAbove(bank, i, lead);
      if ds[0] == bank[lead] {
        MaximalSameLead(bank, k, ds, i);
      } else {
        MaximalSmallerLead(bank, k, ds, i);
      }
    }
  }

  /** The unfolding of `bank_voltage2` for k >= 2. */
  lemma BankVoltage2Unfold(bank: seq<int>, k: nat)
    requires 2 <= k <= |bank|
    ensures var lead := Lead(bank, k);
      BankVoltage2(bank, k).value
        == bank[lead] * Pow(10, k - 1) + BankVoltage2(bank[lead + 1..], k - 1).value
  {
  }

  /** Case of the optimality proof where ds starts with the same digit: the
      rest of ds is chosen after the lead, and the recursion covers it. */
  lemma {:induction false} MaximalSameLead(bank: seq<int>, k: nat, ds: seq<int>, i: nat)
    requires Digits(bank) && 2 <= k <= |bank| && |ds| == k
    requires i < |bank| && bank[i] == ds[0] && IsSubseq(ds[1..], bank[i + 1..])
    requires ds[0] == bank[Lead(bank, k)]
    ensures Number(ds) <= BankVoltage2(bank, k).value
    decreases k, 0
  {
    var lead := Lead(bank, k);
    var suffix := bank[lead + 1..];
    var p := Pow(10, k - 1);
    BankVoltage2Unfold(bank, k);
    assert Number(ds) == ds[0] * p + Number(ds[1..]);
    assert i < lead ==> Below(bank, i, lead);
    assert bank[i + 1..] == suffix[i - lead..];
    SubseqOfSuffix(ds[1..], suffix, i - lead);
    DigitsOfSuffix(bank, lead + 1);
    BankVoltage2IsMaximal(suffix, k - 1, ds[1..]);
  }

  /** Case where ds starts with a smaller digit than the lead: it loses
      whatever follows. */
  lemma MaximalSmallerLead(bank: seq<int>, k: nat, ds: seq<int>, i: nat)
    requires Digits(bank) && 2 <= k <= |bank| && |ds| == k
    requires i < |bank| && bank[i] == ds[0] && IsSubseq(ds[1..], bank[i + 1..])
    requires ds[0] < bank[Lead(bank, k)]
    ensures Number(ds) <= BankVoltage2(bank, k).value
  {
    var lead := Lead(bank, k);
    TailBounds(bank, k, ds, i);
    RestBounds(bank, lead, k);
    BankVoltage2Unfold(bank, k);
    NumberUnfold(ds, k);
    SmallerLeader(ds[0], bank[lead], Number(ds[1..]), BankVoltage2(bank[lead + 1..], k - 1).value,
                  Pow(10, k - 1), Number(ds), BankVoltage2(bank, k).value);
  }

  /** What follows the first digit of ds is a (k - 1)-digit number. */
  lemma TailBounds(bank: seq<int>, k: nat, ds: seq<int>, i: nat)
    requires Digits(bank) && 1 <= k && |ds| == k
    requires i < |bank| && IsSubseq(ds[1..], bank[i + 1..])
    ensures 0 <= Number(ds[1..]) < Pow(10, k - 1)
  {
    DigitsOfSuffix(bank, i + 1);
    DigitsOfSubseq(ds[1..], bank[i + 1..]);
    NumberBounds(ds[1..]);
  }

  /** On digits, a greedy result after any index is not negative. */
  lemma RestBounds(bank: seq<int>, lead: nat, k: nat)
    requires Digits(bank) && 2 <= k && lead + k <= |bank|
    ensures 0 <= BankVoltage2(bank[lead + 1..], k - 1).value
  {
    DigitsOfSuffix(bank, lead + 1);
    BankVoltage2Bounds(bank[lead + 1..], k - 1);
  }

  lemma NumberUnfold(ds: seq<int>, k: nat)
    requires |ds| == k >= 1
    ensures Number(ds) == ds[0] * Pow(10, k - 1) + Number(ds[1..])
  {
  }

  /** A smaller leading digit loses whatever follows. */
  lemma SmallerLeader(a: int, b: int, x: int, y: int, p: int, u: int, v: int)
    requires a < b && 0 <= x < p && 0 <= y
    requires u == a * p + x && v == b * p + y
    ensures u < v
  {
    MulLe(a + 1, b, p);
    assert (a + 1) * p == a * p + p;
  }

  /** A subsequence of digits is made of digits. */
  lemma {:induction false} DigitsOfSubseq(a: seq<int>, b: seq<int>)
    requires Digits(b) && IsSubseq(a, b)
    ensures Digits(a)
    decreases |b|
  {
    if |a| > 0 {
      var i := SubseqFirst(a, b);
      DigitsOfSubseq(a[1..], b[i + 1..]);
    }
  }

  /** On digits, the result is a k-digit number (leading zeros allowed). */
  lemma {:induction false} BankVoltage2Bounds(bank: seq<int>, k: nat)
    requires Digits(bank) && 1 <= k <= |bank|
    ensures 0 <= BankVoltage2(bank, k).value < Pow(10, k)
    decreases k
  {
    if k > 1 {
      var lead := Lead(bank, k);
      var suffix := bank[lead + 1..];
      BankVoltage2Bounds(suffix, k - 1);
      var p := Pow(10, k - 1);
      assert BankVoltage2(bank, k).value == bank[lead] * p + BankVoltage2(suffix, k - 1).value;
      MulLe(bank[lead], 9, p);
      MulLe(0, bank[lead], p);
      assert Pow(10, k) == 10 * p;
    } else {
      assert Max(bank) in bank;
      assert Pow(10, 1) == 10;
    }
  }

  /** And the greedy result is attained: some k digits kept in order read
      as exactly that number. */
  lemma {:induction false} BankVoltage2IsAttained(bank: seq<int>, k: nat) returns (ds: seq<int>)
    requires 1 <= k <= |bank|
    ensures IsSubseq(ds, bank) && |ds| == k
    ensures Number(ds) == BankVoltage2(bank, k).value
    decreases k
  {
    if k == 1 {
      var m := Max(bank);
      var i :| 0 <= i < |bank| && bank[i] == m;
      ds := [m];
      assert ds == [m] + [];
      SubseqCons(m, [], bank, i);
      assert Number(ds) == m * Pow(10, 0) + Number([]);
    } else {
      var lead := Lead(bank, k);
      var suffix := bank[lead + 1..];
      var rest := BankVoltage2IsAttained(suffix, k - 1);
      ds := [bank[lead]] + rest;
      SubseqCons(bank[lead], rest, bank, lead);
      assert ds[1..] == rest;
    }
  }
}
