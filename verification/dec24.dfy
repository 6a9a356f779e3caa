/** Logic-gate circuits (2024/Test0/src/dec24.rs): wires carrying booleans,
    gates computing AND, OR and XOR, the evaluation of the gates in
    topological order, and the coding of 64-bit integers onto wires named
    by a prefix and a two-digit bit number.

    An i64 is modelled by its 64 bits, least significant first: testing
    `value & (1 << i)` reads bit i, and `result |= 1 << i` sets it. */
module Dec24 {
  import opened Wrappers
  import opened Seqs
  import opened Topological
  import opened BasicParsing

  datatype GateOp = And | Or | Xor

  /** Wire c is driven by `a op b`. */
  datatype Gate = Gate(a: string, b: string, op: GateOp)

  /** The initial wire values and the gates, keyed by output wire. */
  datatype Circuit = Circuit(states: map<string, bool>, gates: map<string, Gate>)

  datatype Dec24Error =
    | UnknownGate(name: string)
    | NotANumber(name: string)
    | ShiftOverflow(name: string)

  /** What a gate computes from its two inputs. */
  function GateValue(op: GateOp, a: bool, b: bool): bool {
    match op
    case And => a && b
    case Or => a || b
    case Xor => a != b
  }

  function BitValue(b: bool): nat {
    if b then 1 else 0
  }

  /** XOR and AND of two bits are the low and the high bit of their sum (a
      half adder), and OR is set exactly when the sum is not zero. */
  lemma HalfAdder(a: bool, b: bool)
    ensures BitValue(GateValue(Xor, a, b)) + 2 * BitValue(GateValue(And, a, b)) == BitValue(a) + BitValue(b)
    ensures GateValue(Or, a, b) <==> BitValue(a) + BitValue(b) > 0
  {
  }

  /** The two-digit decimal rendering of `{:02}` for numbers below 100. */
  function TwoDigits(i: nat): (s: string)
    requires i < 100
    ensures |s| == 2 && IsDigitStr(s)
  {
    [DigitChar(i / 10), DigitChar(i % 10)]
  }

  function DigitChar(d: nat): (c: char)
    requires d < 10
    ensures '0' <= c <= '9' && c as int - '0' as int == d
  {
    ('0' as int + d) as char
  }

  /** The wire name of bit i under a prefix, as `format!("{}{:02}", ..)`. */
  function Name(prefix: string, i: nat): string
    requires i < 100
  {
    prefix + TwoDigits(i)
  }

  /** k is the name of one of the first n bits. */
  ghost predicate NameBelow(prefix: string, k: string, n: nat)
    requires n <= 100
  {
    exists i :: 0 <= i < n && k == Name(prefix, i)
  }

  ghost predicate IsName(prefix: string, k: string) {
    NameBelow(prefix, k, 64)
  }

  predicate IsDigitStr(s: string) {
    forall i :: 0 <= i < |s| ==> '0' <= s[i] <= '9'
  }

  function DecimalValue(s: string): nat
    requires IsDigitStr(s)
  {
    if |s| == 0 then 0
    else DecimalValue(s[..|s| - 1]) * 10 + (s[|s| - 1] as int - '0' as int)
  }

  const I64Max: int := 0x7fff_ffff_ffff_ffff

  /** `str::parse::<i64>`: an optional sign and at least one decimal digit,
      in the range of an i64. */
  function ParseI64(s: string): (r: Option<int>)
    ensures r.Some? ==> -I64Max - 1 <= r.value <= I64Max
    ensures r.Some? && IsDigitStr(s) ==> |s| > 0 && r.value == DecimalValue(s)
    ensures IsDigitStr(s) && |s| > 0 && DecimalValue(s) <= I64Max ==> r.Some?
  {
    var signed := |s| > 0 && (s[0] == '+' || s[0] == '-');
    var body := if signed then s[1..] else s;
    if |body| == 0 || !IsDigitStr(body) then None
    else
      var m: int := DecimalValue(body);
      var v := if signed && s[0] == '-' then -m else m;
      if -I64Max - 1 <= v <= I64Max then Some(v) else None
  }

  /** The suffix of a bit name reads back as the bit number. */
  lemma ParseTwoDigits(i: nat)
    requires i < 100
    ensures ParseI64(TwoDigits(i)) == Some(i)
  {
    var s := TwoDigits(i);
    assert s[..1][..0] == [];
    assert DecimalValue(s[..1]) == i / 10;
    assert DecimalValue(s) == DecimalValue(s[..1]) * 10 + i % 10;
  }

  /** Distinct bit numbers give distinct wire names. */
  lemma NameInjective(prefix: string, i: nat, j: nat)
    requires i < 100 && j < 100 && Name(prefix, i) == Name(prefix, j)
    ensures i == j
  {
    assert Name(prefix, i)[|prefix|..] == TwoDigits(i);
    assert Name(prefix, j)[|prefix|..] == TwoDigits(j);
    ParseTwoDigits(i);
    ParseTwoDigits(j);
  }

  /** `inject` after its first n iterations. */
  function InjectUpTo(prefix: string, v: seq<bool>, states: map<string, bool>, n: nat): (r: map<string, bool>)
    requires |v| == 64 && n <= 64
    ensures forall i :: 0 <= i < n ==> Name(prefix, i) in r && r[Name(prefix, i)] == v[i]
    ensures forall k :: k in r <==> k in states || NameBelow(prefix, k, n)
    ensures forall k :: k in states && !NameBelow(prefix, k, n) ==> r[k] == states[k]
  {
    if n == 0 then states
    else
      var r0 := InjectUpTo(prefix, v, states, n - 1);
      InjectStep(prefix, v, states, n, r0);
      r0[Name(prefix, n - 1) := v[n - 1]]
  }

  /** Writing bit n - 1 extends the first n - 1 iterations to n. */
  lemma InjectStep(prefix: string, v: seq<bool>, states: map<string, bool>, n: nat, r0: map<string, bool>)
    requires |v| == 64 && 1 <= n <= 64
    requires forall i :: 0 <= i < n - 1 ==> Name(prefix, i) in r0 && r0[Name(prefix, i)] == v[i]
    requires forall k :: k in r0 <==> k in states || NameBelow(prefix, k, n - 1)
    requires forall k :: k in states && !NameBelow(prefix, k, n - 1) ==> r0[k] == states[k]
    ensures var r := r0[Name(prefix, n - 1) := v[n - 1]];
      (forall i :: 0 <= i < n ==> Name(prefix, i) in r && r[Name(prefix, i)] == v[i])
      && (forall k :: k in r <==> k in states || NameBelow(prefix, k, n))
      && (forall k :: k in states && !NameBelow(prefix, k, n) ==> r[k] == states[k])
  {
    NameBelowStep(prefix, n);
  }

  /** The names below n + 1 are those below n and one new name. */
  lemma NameBelowStep(prefix: string, n: nat)
    requires 1 <= n <= 64
    ensures forall k :: NameBelow(prefix, k, n) <==> NameBelow(prefix, k, n - 1) || k == Name(prefix, n - 1)
    ensures forall i :: 0 <= i < n - 1 ==> Name(prefix, i) != Name(prefix, n - 1)
    ensures !NameBelow(prefix, Name(prefix, n - 1), n - 1)
  {
    forall i | 0 <= i < n - 1 ensures Name(prefix, i) != Name(prefix, n - 1) {
      if Name(prefix, i) == Name(prefix, n - 1) {
        NameInjective(prefix, i, n - 1);
      }
    }
  }

  /** `inject`: writes the 64 bits of v to the wires named by the prefix,
      overwriting them and leaving every other wire alone. */
  function Inject(prefix: string, v: seq<bool>, states: map<string, bool>): (r: map<string, bool>)
    requires |v| == 64
    ensures forall i :: 0 <= i < 64 ==> Name(prefix, i) in r && r[Name(prefix, i)] == v[i]
    ensures forall k :: k in r <==> k in states || IsName(prefix, k)
    ensures forall k :: k in states && !IsName(prefix, k) ==> r[k] == states[k]
  {
    InjectUpTo(prefix, v, states, 64)
  }

  /** A name under the prefix goes on with a number that `parse::<i64>`
      accepts and that a shift of an i64 accepts, 0..63; a name outside the
      prefix is not read as a bit. */
  predicate BitName(prefix: string, name: string) {
    StartsWith(name, prefix) ==>
      var b := ParseI64(name[|prefix|..]);
      b.Some? && 0 <= b.value < 64
  }

  /** An entry that `decode` can take without panicking: a false wire is
      skipped, and a true wire must be a bit name. */
  predicate Decodable(prefix: string, e: (string, bool)) {
    e.1 ==> BitName(prefix, e.0)
  }

  /** The entry turns bit i on. */
  predicate SetsBit(prefix: string, e: (string, bool), i: int) {
    e.1 && StartsWith(e.0, prefix) && ParseI64(e.0[|prefix|..]) == Some(i)
  }

  /** `decode` over the wire map listed in its iteration order: the OR of
      `1 << n` over the true wires named prefix + n. A suffix that is not a
      number panics at `unwrap`, and a bit number outside 0..63 overflows
      the shift, which panics in a debug build. */
  function Decode(prefix: string, entries: seq<(string, bool)>): (r: Result<seq<bool>, Dec24Error>)
    ensures r.Success? <==> forall e :: e in entries ==> Decodable(prefix, e)
    ensures r.Success? ==> |r.value| == 64
    ensures r.Failure? ==> exists e :: e in entries && !Decodable(prefix, e) && r.error.name == e.0
  {
    if |entries| == 0 then Success(seq(64, _ => false))
    else
      var init := entries[..|entries| - 1];
      var e := entries[|entries| - 1];
      assert entries == init + [e];
      var acc :- Decode(prefix, init);
      if !e.1 || !StartsWith(e.0, prefix) then Success(acc)
      else
        match ParseI64(e.0[|prefix|..])
        case None =>
          assert !Decodable(prefix, e);
          Failure(NotANumber(e.0))
        case Some(b) =>
          if 0 <= b < 64 then Success(acc[b := true])
          else
            assert !Decodable(prefix, e);
            Failure(ShiftOverflow(e.0))
  }

  /** Bit i of the decoded value is set exactly when some listed wire sets it. */
  lemma {:induction false} DecodeBits(prefix: string, entries: seq<(string, bool)>, i: nat)
    requires i < 64 && Decode(prefix, entries).Success?
    ensures Decode(prefix, entries).value[i] <==> exists e :: e in entries && SetsBit(prefix, e, i)
  {
    if |entries| > 0 {
      var init := entries[..|entries| - 1];
      var e := entries[|entries| - 1];
      assert entries == init + [e];
      DecodeBits(prefix, init, i);
      DecodeLast(prefix, init, e, i);
      assert (exists x :: x in entries && SetsBit(prefix, x, i))
        <==> (exists x :: x in init && SetsBit(prefix, x, i)) || SetsBit(prefix, e, i);
    }
  }

  /** The last entry sets bit i on top of the others exactly when it names
      bit i. */
  lemma DecodeLast(prefix: string, init: seq<(string, bool)>, e: (string, bool), i: nat)
    requires i < 64 && Decode(prefix, init + [e]).Success?
    ensures Decode(prefix, init).Success?
    ensures Decode(prefix, init + [e]).value[i] <==> Decode(prefix, init).value[i] || SetsBit(prefix, e, i)
  {
    var entries := init + [e];
    assert entries[..|entries| - 1] == init && entries[|entries| - 1] == e;
    var acc := Decode(prefix, init).value;
    if e.1 && StartsWith(e.0, prefix) {
      var b := ParseI64(e.0[|prefix|..]).value;
      assert Decode(prefix, entries).value == acc[b := true];
    } else {
      assert Decode(prefix, entries).value == acc;
    }
  }

  /** `entries` lists the map m: each key once, with its value. */
  ghost predicate Lists(entries: seq<(string, bool)>, m: map<string, bool>) {
    forall k, b :: (k, b) in entries <==> k in m && m[k] == b
  }

  /** The map `inject` writes into an empty map lists exactly the bit
      names, each with its bit. */
  lemma InjectedEntry(prefix: string, v: seq<bool>, entries: seq<(string, bool)>, k: string, b: bool)
    requires |v| == 64 && Lists(entries, Inject(prefix, v, map[])) && (k, b) in entries
    ensures exists i :: 0 <= i < 64 && k == Name(prefix, i) && b == v[i]
  {
    var m := Inject(prefix, v, map[]);
    assert k in m && m[k] == b && IsName(prefix, k);
  }

  lemma NameSuffix(prefix: string, i: nat)
    requires i < 64
    ensures StartsWith(Name(prefix, i), prefix) && ParseI64(Name(prefix, i)[|prefix|..]) == Some(i)
  {
    assert Name(prefix, i)[|prefix|..] == TwoDigits(i);
    ParseTwoDigits(i);
  }

  lemma InjectDecodable(prefix: string, v: seq<bool>, entries: seq<(string, bool)>)
    requires |v| == 64 && Lists(entries, Inject(prefix, v, map[]))
    ensures Decode(prefix, entries).Success?
  {
    forall e | e in entries ensures Decodable(prefix, e) {
      InjectedEntry(prefix, v, entries, e.0, e.1);
      var i :| 0 <= i < 64 && e.0 == Name(prefix, i) && e.1 == v[i];
      NameSuffix(prefix, i);
    }
  }

  lemma DecodeInjectBit(prefix: string, v: seq<bool>, entries: seq<(string, bool)>, i: nat)
    requires |v| == 64 && Lists(entries, Inject(prefix, v, map[])) && i < 64
    requires Decode(prefix, entries).Success?
    ensures Decode(prefix, entries).value[i] == v[i]
  {
    var r := Decode(prefix, entries).value;
    DecodeBits(prefix, entries, i);
    var m := Inject(prefix, v, map[]);
    assert Name(prefix, i) in m && m[Name(prefix, i)] == v[i];
    assert (Name(prefix, i), v[i]) in entries;
    NameSuffix(prefix, i);
    if r[i] {
      var e :| e in entries && SetsBit(prefix, e, i);
      InjectedEntry(prefix, v, entries, e.0, e.1);
      var j :| 0 <= j < 64 && e.0 == Name(prefix, j) && e.1 == v[j];
      NameSuffix(prefix, j);
    } else {
      assert !SetsBit(prefix, (Name(prefix, i), v[i]), i);
    }
  }

  /** Decoding the wires that `inject` wrote into an empty map gives back
      the injected value, whatever order the map lists them in. */
  lemma DecodeInject(prefix: string, v: seq<bool>, entries: seq<(string, bool)>)
    requires |v| == 64 && Lists(entries, Inject(prefix, v, map[]))
    ensures Decode(prefix, entries) == Success(v)
  {
    InjectDecodable(prefix, v, entries);
    var r := Decode(prefix, entries).value;
    forall i | 0 <= i < 64 ensures r[i] == v[i] {
      DecodeInjectBit(prefix, v, entries, i);
    }
    assert |r| == 64 && r == v;
  }

  /** Wire e.0 is an input of the gate driving e.1. */
  ghost predicate IsWire(gates: map<string, Gate>, e: (string, string)) {
    e.1 in gates && (e.0 == gates[e.1].a || e.0 == gates[e.1].b)
  }

  /** `gates_order`: the gate outputs, sorted along the wires. The key set
      and the wire set are hash sets, so keyOrder and wireOrder are their
      iteration orders. */
  function GatesOrder(gates: map<string, Gate>, keyOrder: seq<string>, wireOrder: seq<(string, string)>): (r: seq<string>)
    requires forall k :: k in keyOrder <==> k in gates
    requires forall e :: e in wireOrder <==> IsWire(gates, e)
    ensures Distinct(r)
    ensures forall k :: k in r <==> k in gates
  {
    var r := TopoSort(keyOrder, wireOrder);
    forall k | k in r ensures k in gates {
      assert forall x :: (x, k) in wireOrder ==> IsWire(gates, (x, k));
    }
    r
  }

  /** A height that drops from every gate input to the gate's output: the
      circuit has no feedback loop. */
  ghost predicate Acyclic(gates: map<string, Gate>, h: string -> nat) {
    forall out :: out in gates ==> h(gates[out].a) > h(out) && h(gates[out].b) > h(out)
  }

  /** In a circuit without feedback, every gate comes after the gates that
      drive its inputs. */
  lemma GatesOrderTopological(gates: map<string, Gate>, keyOrder: seq<string>, wireOrder: seq<(string, string)>, h: string -> nat)
    requires forall k :: k in keyOrder <==> k in gates
    requires forall e :: e in wireOrder <==> IsWire(gates, e)
    requires Acyclic(gates, h)
    ensures var r := GatesOrder(gates, keyOrder, wireOrder);
      forall i, j :: 0 <= i < |r| && 0 <= j < |r| && IsWire(gates, (r[i], r[j])) ==> i < j
  {
    TopoSortOrdered(keyOrder, wireOrder, h);
  }

  /** One turn of the loop in `compute`: a wire that has a value is
      skipped, a name that is not a gate panics at `unwrap`, a gate with an
      input still unknown is skipped, and otherwise the gate's value is
      stored. Before that, a computed gate named z and a suffix has its
      expected bit looked up: a suffix that is not a number panics at
      `unwrap`, and a bit number outside 0..63 overflows the shift. */
  function EvalStep(gates: map<string, Gate>, name: string, s: map<string, bool>): (r: Result<map<string, bool>, Dec24Error>)
    ensures r.Success? ==> name in s || name in gates
    ensures name in s || (name in gates && BitName("z", name)) ==> r.Success?
    ensures r.Failure? ==> (r.error.name == name && name !in s
      && (r.error.UnknownGate? <==> name !in gates)
      && (name in gates ==> !BitName("z", name)))
    ensures r.Success? ==> Keeps(s, r.value)
    ensures r.Success? ==> forall k :: k in r.value && k !in s ==> k == name && Computed(gates, r.value, k) && BitName("z", k)
  {
    if name in s then Success(s)
    else if name !in gates then Failure(UnknownGate(name))
    else
      var g := gates[name];
      if g.a !in s || g.b !in s then Success(s)
      else
        var stored := Success(s[name := GateValue(g.op, s[g.a], s[g.b])]);
        if !StartsWith(name, "z") then stored
        else
          match ParseI64(name[1..])
          case None => Failure(NotANumber(name))
          case Some(b) => if 0 <= b < 64 then stored else Failure(ShiftOverflow(name))
  }

  /** t keeps every wire value of s. */
  ghost predicate Keeps(s: map<string, bool>, t: map<string, bool>) {
    forall k :: k in s ==> k in t && t[k] == s[k]
  }

  /** Wire k holds what its gate computes from the values of its inputs. */
  ghost predicate Computed(gates: map<string, Gate>, s: map<string, bool>, k: string) {
    k in gates && k in s && gates[k].a in s && gates[k].b in s
      && s[k] == GateValue(gates[k].op, s[gates[k].a], s[gates[k].b])
  }

  /** The loop of `compute` over the gate order: values are only added,
      never overwritten, and every added wire is a gate of the order holding
      the value of its gate, under a bit name when it starts with z. It
      panics on a wire of the order that is neither known nor a gate, and on
      a computed gate whose z name has no bit number; it cannot panic when
      every wire of the order is known or a gate with such a name. */
  function Evaluate(gates: map<string, Gate>, order: seq<string>, states: map<string, bool>): (r: Result<map<string, bool>, Dec24Error>)
    ensures r.Success? ==> forall n :: n in order ==> n in states || n in gates
    ensures (forall n :: n in order ==> n in states || (n in gates && BitName("z", n))) ==> r.Success?
    ensures r.Failure? ==> (r.error.name in order && r.error.name !in states
      && (r.error.UnknownGate? <==> r.error.name !in gates)
      && (r.error.name in gates ==> !BitName("z", r.error.name)))
    ensures r.Success? ==> Keeps(states, r.value)
    ensures r.Success? ==> forall k :: k in r.value && k !in states ==> k in order && Computed(gates, r.value, k)
    ensures r.Success? ==> forall k :: k in r.value && k !in states ==> BitName("z", k)
  {
    if |order| == 0 then Success(states)
    else
      var init := order[..|order| - 1];
      var name := order[|order| - 1];
      assert order == init + [name];
      var s :- Evaluate(gates, init, states);
      EvalStep(gates, name, s)
  }

  /** A computed gate named zq panics whatever it computes: its suffix is
      not a number. */
  lemma ZGateNotANumber()
    ensures Evaluate(map["zq" := Gate("a", "b", And)], ["zq"], map["a" := true, "b" := false]) == Failure(NotANumber("zq"))
  {
    assert ["zq"][..0] == [];
    assert "zq"[1..] == "q" && ParseI64("q") == None;
  }

  /** A computed gate named z99 panics whatever it computes: bit 99 is too
      large for the shift. */
  lemma ZGateShiftOverflow()
    ensures Evaluate(map["z99" := Gate("a", "b", Or)], ["z99"], map["a" := true, "b" := false]) == Failure(ShiftOverflow("z99"))
  {
    assert ["z99"][..0] == [];
    assert "z99"[1..] == "99" && ParseI64("99") == Some(99) by {
      assert "99"[..1] == "9" && "9"[..0] == [];
    }
  }

  /** Gate i of the order finds each input either among the known wires or
      among the outputs of the gates before it. */
  ghost predicate InputsReady(gates: map<string, Gate>, states: map<string, bool>, order: seq<string>, i: int) {
    0 <= i < |order| && order[i] in gates
      && (gates[order[i]].a in states || gates[order[i]].a in order[..i])
      && (gates[order[i]].b in states || gates[order[i]].b in order[..i])
  }

  /** When each gate's inputs are ready in time, every gate of the order
      is computed, so the loop panics exactly when one of them that had no
      value is a z name without a bit number; otherwise every gate of the
      order gets a value. */
  lemma {:induction false} EvaluateComplete(gates: map<string, Gate>, order: seq<string>, states: map<string, bool>)
    requires forall i :: 0 <= i < |order| ==> InputsReady(gates, states, order, i)
    ensures Evaluate(gates, order, states).Success? <==> forall n :: n in order && n !in states ==> BitName("z", n)
    ensures Evaluate(gates, order, states).Success? ==> forall n :: n in order ==> n in Evaluate(gates, order, states).value
  {
    if |order| > 0 {
      var init := order[..|order| - 1];
      var name := order[|order| - 1];
      assert order == init + [name];
      forall i | 0 <= i < |init| ensures InputsReady(gates, states, init, i) {
        assert InputsReady(gates, states, order, i);
        assert order[..i] == init[..i];
      }
      EvaluateComplete(gates, init, states);
      assert InputsReady(gates, states, order, |order| - 1);
      var r0 := Evaluate(gates, init, states);
      if r0.Success? {
        EvaluateLast(gates, init, name, states);
        assert Evaluate(gates, order, states) == EvalStep(gates, name, r0.value);
      } else {
        assert Evaluate(gates, order, states) == r0;
      }
    }
  }

  /** The step after a complete prefix computes its gate, so it panics
      exactly on a new z name without a bit number. */
  lemma EvaluateLast(gates: map<string, Gate>, init: seq<string>, name: string, states: map<string, bool>)
    requires Evaluate(gates, init, states).Success?
    requires forall n :: n in init ==> n in Evaluate(gates, init, states).value
    requires name in gates
    requires (gates[name].a in states || gates[name].a in init) && (gates[name].b in states || gates[name].b in init)
    ensures var s := Evaluate(gates, init, states).value;
      var t := EvalStep(gates, name, s);
      (t.Success? <==> name in s || BitName("z", name))
      && (t.Success? ==> name in t.value && forall n :: n in init ==> n in t.value)
  {
    var s := Evaluate(gates, init, states).value;
    var g := gates[name];
    assert g.a in s && g.b in s;
    var t := EvalStep(gates, name, s);
    if t.Success? && name !in s {
      assert t.value == s[name := GateValue(g.op, s[g.a], s[g.b])];
    }
  }

  lemma ReadyAreGates(gates: map<string, Gate>, states: map<string, bool>, order: seq<string>)
    requires forall i :: 0 <= i < |order| ==> InputsReady(gates, states, order, i)
    ensures forall n :: n in order ==> n in gates
  {
    forall n | n in order ensures n in gates {
      var i :| 0 <= i < |order| && order[i] == n;
      assert InputsReady(gates, states, order, i);
    }
  }

  /** The wire values `compute` starts from: the circuit's initial values
      with the bits of x and y written over the x and y wires. */
  function InitialStates(circuit: Circuit, x: seq<bool>, y: seq<bool>): map<string, bool>
    requires |x| == 64 && |y| == 64
  {
    Inject("y", y, Inject("x", x, circuit.states))
  }

  /** `compute` up to the final `decode("z", ..)`, with the random operands
      x and y passed in: the wire values after evaluating the gates in
      topological order. Every name of the order is a gate, so the only
      panic is the bit lookup of a computed gate named z without a bit
      number. It keeps the starting values, and every other wire holds its
      gate's value. */
  function Compute(circuit: Circuit, keyOrder: seq<string>, wireOrder: seq<(string, string)>, x: seq<bool>, y: seq<bool>): (r: Result<map<string, bool>, Dec24Error>)
    requires |x| == 64 && |y| == 64
    requires forall k :: k in keyOrder <==> k in circuit.gates
    requires forall e :: e in wireOrder <==> IsWire(circuit.gates, e)
    ensures (forall k :: k in circuit.gates && k !in InitialStates(circuit, x, y) ==> BitName("z", k)) ==> r.Success?
    ensures r.Failure? ==> (!r.error.UnknownGate? && r.error.name in circuit.gates
      && r.error.name !in InitialStates(circuit, x, y) && !BitName("z", r.error.name))
    ensures r.Success? ==> Keeps(InitialStates(circuit, x, y), r.value)
    ensures r.Success? ==> forall k :: k in r.value ==> k in InitialStates(circuit, x, y) || Computed(circuit.gates, r.value, k)
  {
    var order := GatesOrder(circuit.gates, keyOrder, wireOrder);
    Evaluate(circuit.gates, order, InitialStates(circuit, x, y))
  }

  /** In a circuit without feedback whose gate inputs are all gates or
      starting wires, every gate is computed: `compute` panics exactly when
      a gate without a starting value is a z name without a bit number, and
      otherwise every gate gets the value it computes. */
  lemma ComputeComplete(circuit: Circuit, keyOrder: seq<string>, wireOrder: seq<(string, string)>, x: seq<bool>, y: seq<bool>, h: string -> nat)
    requires |x| == 64 && |y| == 64
    requires forall k :: k in keyOrder <==> k in circuit.gates
    requires forall e :: e in wireOrder <==> IsWire(circuit.gates, e)
    requires Acyclic(circuit.gates, h)
    requires forall out :: out in circuit.gates ==>
      var g := circuit.gates[out];
      (g.a in circuit.gates || g.a in InitialStates(circuit, x, y))
      && (g.b in circuit.gates || g.b in InitialStates(circuit, x, y))
    ensures Compute(circuit, keyOrder, wireOrder, x, y).Success? <==>
      forall k :: k in circuit.gates && k !in InitialStates(circuit, x, y) ==> BitName("z", k)
    ensures var r := Compute(circuit, keyOrder, wireOrder, x, y);
      r.Success? ==> forall k :: k in circuit.gates ==> k in r.value && (k !in InitialStates(circuit, x, y) ==> Computed(circuit.gates, r.value, k))
  {
    var gates := circuit.gates;
    var states := InitialStates(circuit, x, y);
    var order := GatesOrder(gates, keyOrder, wireOrder);
    GatesOrderTopological(gates, keyOrder, wireOrder, h);
    OrderReady(gates, states, order);
    EvaluateComplete(gates, order, states);
  }

  lemma OrderReady(gates: map<string, Gate>, states: map<string, bool>, order: seq<string>)
    requires forall k :: k in order <==> k in gates
    requires forall i, j :: 0 <= i < |order| && 0 <= j < |order| && IsWire(gates, (order[i], order[j])) ==> i < j
    requires forall out :: out in gates ==>
      (gates[out].a in gates || gates[out].a in states) && (gates[out].b in gates || gates[out].b in states)
    ensures forall i :: 0 <= i < |order| ==> InputsReady(gates, states, order, i)
  {
    forall i | 0 <= i < |order| ensures InputsReady(gates, states, order, i) {
      var g := gates[order[i]];
      if g.a !in states {
        EarlierInput(gates, order, i, g.a);
      }
      if g.b !in states {
        EarlierInput(gates, order, i, g.b);
      }
    }
  }

  /** In a topological gate order, an input that is a gate comes earlier. */
  lemma EarlierInput(gates: map<string, Gate>, order: seq<string>, i: int, w: string)
    requires forall k :: k in order <==> k in gates
    requires forall i, j :: 0 <= i < |order| && 0 <= j < |order| && IsWire(gates, (order[i], order[j])) ==> i < j
    requires 0 <= i < |order| && w in gates && (w == gates[order[i]].a || w == gates[order[i]].b)
    ensures w in order[..i]
  {
    var j :| 0 <= j < |order| && order[j] == w;
    assert IsWire(gates, (order[j], order[i]));
    assert order[..i][j] == w;
  }
}
