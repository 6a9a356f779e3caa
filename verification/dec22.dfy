/** Monkey-market secret numbers (2024/Test0/src/dec22.rs): a pseudo-random
    step on 24-bit values, the price (last decimal digit) sequence it
    generates, and the table from each run of four price changes to the
    price at its first occurrence.

    Secrets are natural numbers, as in the puzzle inputs; a negative `i64`
    secret, with its truncating `%` and two's-complement exclusive or, is
    not modelled. */
module Dec22 {
  import opened Arith
  import opened Seqs

  /** 2^24: `prune` keeps a value below it. */
  const Modulus: nat := 16777216

  lemma ModulusIsPow()
    ensures Modulus == Pow(2, 24)
  {
    assert Pow(2, 4) == 16;
    assert Pow(2, 8) == 256 by { PowAdd(2, 4, 4); }
    assert Pow(2, 16) == 65536 by { PowAdd(2, 8, 8); }
    PowAdd(2, 16, 8);
  }

  /** `prune`: the value modulo 2^24. */
  function Prune(v: nat): (r: nat)
    ensures r < Modulus
    ensures (v - r) % Modulus == 0
    ensures v < Modulus ==> r == v
  {
    v % Modulus
  }

  /** `mix`: bitwise exclusive or. */
  function Mix(v0: nat, v1: nat): nat {
    Xor(v0, v1)
  }

  /** Mixing a value into itself gives 0, and the order of mixing does not
      matter. */
  lemma MixProperties(a: nat, b: nat)
    ensures Mix(a, a) == 0
    ensures Mix(a, b) == Mix(b, a)
  {
    XorSelf(a);
    XorComm(a, b);
  }

  /** Mixing two 24-bit values gives a 24-bit value, so pruning is then a
      no-op. */
  lemma MixInRange(a: nat, b: nat)
    requires a < Modulus && b < Modulus
    ensures Mix(a, b) < Modulus
  {
    ModulusIsPow();
    XorBound(a, b, 24);
  }

  /** `step`: multiply by 64, mix, prune; divide by 32, mix, prune;
      multiply by 2048, mix, prune. */
  function Step(val: nat): (r: nat)
    ensures r < Modulus
  {
    var v0 := Prune(Mix(val, val * 64));
    var v1 := Prune(Mix(v0, v0 / 32));
    Prune(Mix(v1, v1 * 2048))
  }

  /** The middle stage never needs its prune: a 24-bit value mixed with its
      own quotient by 32 stays below 2^24. */
  lemma MiddlePruneIsNoOp(v0: nat)
    requires v0 < Modulus
    ensures Prune(Mix(v0, v0 / 32)) == Mix(v0, v0 / 32)
  {
    MixInRange(v0, v0 / 32);
  }

  /** The secret number after n steps. */
  function Secret(init: nat, n: nat): (r: nat)
    ensures n > 0 ==> r < Modulus
    ensures init < Modulus ==> r < Modulus
  {
    if n == 0 then init else Step(Secret(init, n - 1))
  }

  /** Steps compose: m steps followed by n steps are m + n steps. */
  lemma {:induction false} SecretAdd(init: nat, m: nat, n: nat)
    ensures Secret(Secret(init, m), n) == Secret(init, m + n)
    decreases n
  {
    if n > 0 {
      SecretAdd(init, m, n - 1);
      assert Secret(init, m + n) == Step(Secret(init, m + n - 1));
    }
  }

  /** `compute_one`: `steps` applications of `step` (none when steps is not
      positive). */
  method ComputeOne(init: nat, steps: int) returns (res: nat)
    ensures res == Secret(init, if steps < 0 then 0 else steps)
    ensures steps <= 0 ==> res == init
    ensures steps > 0 ==> res < Modulus && res == Step(Secret(init, steps - 1))
  {
    res := init;
    var i := 0;
    while i < steps
      invariant 0 <= i && (steps >= 0 ==> i <= steps) && (steps < 0 ==> i == 0)
      invariant res == Secret(init, i)
    {
      res := Step(res);
      i := i + 1;
    }
  }

  /** The prices of the initial secret and of the secrets after 1..n
      steps. */
  function Prices(init: nat, n: nat): seq<int> {
    if n == 0 then [init % 10] else Prices(init, n - 1) + [Secret(init, n) % 10]
  }

  /** Entry i of the price list is the last digit of the i-th secret. */
  lemma {:induction false} PricesSpec(init: nat, n: nat)
    ensures |Prices(init, n)| == n + 1
    ensures forall i :: 0 <= i < |Prices(init, n)| ==> Prices(init, n)[i] == Secret(init, i) % 10
    ensures forall i :: 0 <= i < |Prices(init, n)| ==> 0 <= Prices(init, n)[i] <= 9
  {
    if n > 0 {
      PricesSpec(init, n - 1);
    }
  }

  /** One more step appends one more price. */
  lemma PricesNext(init: nat, i: nat)
    ensures Secret(init, i + 1) == Step(Secret(init, i))
    ensures Prices(init, i + 1) == Prices(init, i) + [Step(Secret(init, i)) % 10]
  {
  }

  /** `collect_one`: the price (last digit) of the initial secret and of the
      secret after each of the `steps` steps. */
  method CollectOne(init: nat, steps: int) returns (result: seq<int>)
    ensures |result| == (if steps < 0 then 0 else steps) + 1
    ensures forall i :: 0 <= i < |result| ==> result[i] == Secret(init, i) % 10
    ensures forall i :: 0 <= i < |result| ==> 0 <= result[i] <= 9
  {
    result := [init % 10];
    var res := init;
    var i := 0;
    while i < steps
      invariant 0 <= i && (steps >= 0 ==> i <= steps) && (steps < 0 ==> i == 0)
      invariant res == Secret(init, i)
      invariant result == Prices(init, i)
    {
      PricesNext(init, i);
      res := Step(res);
      result := result + [res % 10];
      i := i + 1;
    }
    PricesSpec(init, i);
  }

  /** `adjacent_differences`: the change from each entry to the next. */
  function AdjacentDifferences(v: seq<int>): (d: seq<int>)
    ensures |d| == if |v| == 0 then 0 else |v| - 1
    ensures forall i :: 0 <= i < |d| ==> v[i] + d[i] == v[i + 1]
  {
    if |v| < 2 then [] else [v[1] - v[0]] + AdjacentDifferences(v[1..])
  }

  /** The differences determine the sequence from its first entry: entry k
      is the first entry plus the first k changes. */
  lemma {:induction false} DifferencesReconstruct(v: seq<int>, k: nat)
    requires k < |v|
    ensures v[0] + Sum(AdjacentDifferences(v)[..k]) == v[k]
  {
    if k > 0 {
      DifferencesReconstruct(v, k - 1);
      var d := AdjacentDifferences(v);
      assert d[..k][..k - 1] == d[..k - 1];
    }
  }

  /** A run of four consecutive price changes. */
  type Sec = (int, int, int, int)

  /** The four changes that lead up to the price at idx. */
  function KeyAt(prices: seq<int>, idx: nat): Sec
    requires 4 <= idx < |prices|
  {
    var d := AdjacentDifferences(prices);
    (d[idx - 4], d[idx - 3], d[idx - 2], d[idx - 1])
  }

  /** The runs of four changes in order: entry j is the run that ends at
      price j + 4. */
  function Runs(prices: seq<int>): (ks: seq<Sec>)
    ensures |ks| == if |prices| < 4 then 0 else |prices| - 4
    ensures forall j :: 0 <= j < |ks| ==> ks[j] == KeyAt(prices, j + 4)
  {
    if |prices| < 4 then []
    else seq(|prices| - 4, j requires 0 <= j < |prices| - 4 => KeyAt(prices, j + 4))
  }

  /** No earlier run equals run j. */
  predicate FirstIn<K(==)>(ks: seq<K>, j: nat)
    requires j < |ks|
  {
    forall i :: 0 <= i < j ==> ks[i] != ks[j]
  }

  /** The table after the first n runs: each run seen so far is a key,
      mapped to the value at its first occurrence. */
  function Table<K(==)>(ks: seq<K>, vs: seq<int>, n: nat): map<K, int>
    requires n <= |ks| <= |vs|
  {
    if n == 0 then map[]
    else
      var t := Table(ks, vs, n - 1);
      if ks[n - 1] in t then t else t[ks[n - 1] := vs[n - 1]]
  }

  /** The keys of the table are the runs seen, and each run that first
      occurs at j is mapped to the value at j. */
  lemma {:induction false} TableSpec<K(!new)>(ks: seq<K>, vs: seq<int>, n: nat)
    requires n <= |ks| <= |vs|
    ensures forall key :: key in Table(ks, vs, n) <==> key in ks[..n]
    ensures forall j :: 0 <= j < n && FirstIn(ks, j) ==> ks[j] in Table(ks, vs, n) && Table(ks, vs, n)[ks[j]] == vs[j]
  {
    if n > 0 {
      TableSpec(ks, vs, n - 1);
      assert ks[..n] == ks[..n - 1] + [ks[n - 1]];
      if FirstIn(ks, n - 1) {
        assert ks[n - 1] !in ks[..n - 1];
      }
    }
  }

  /** `compute_sec_to_ban`: maps each run of four changes that occurs to the
      price right after its first occurrence; later occurrences are
      skipped. */
  method ComputeSecToBan(prices: seq<int>) returns (result: map<Sec, int>)
    ensures forall key :: key in result <==> key in Runs(prices)
    ensures forall j :: 0 <= j < |Runs(prices)| && FirstIn(Runs(prices), j) ==>
      Runs(prices)[j] in result && result[Runs(prices)[j]] == prices[j + 4]
  {
    result := map[];
    var adjacent := AdjacentDifferences(prices);
    ghost var ks := Runs(prices);
    ghost var vs := if |prices| < 4 then [] else prices[4..];
    var idx := 4;
    while idx < |prices|
      invariant 4 <= idx <= 4 + |ks|
      invariant result == Table(ks, vs, idx - 4)
    {
      var price := prices[idx];
      var key := (adjacent[idx - 4], adjacent[idx - 3], adjacent[idx - 2], adjacent[idx - 1]);
      assert key == ks[idx - 4] && price == vs[idx - 4];
      if key !in result {
        result := result[key := price];
      }
      idx := idx + 1;
    }
    TableSpec(ks, vs, |ks|);
    assert ks[..|ks|] == ks;
  }
}
