/** Plane vectors (aoc2025/src/vec2.rs): integer pairs with quarter turns,
    componentwise arithmetic and scalar scaling. Grid coordinates put y
    downwards, so a turn by +90 degrees in the usual orientation shows as
    clockwise on screen. */
module Vectors {
  import opened Wrappers
  import opened Arith

  datatype Vec2 = Vec2(x: int, y: int)

  /** Dot product and squared length, to state what the rotations keep. */
  function Dot(a: Vec2, b: Vec2): int {
    a.x * b.x + a.y * b.y
  }

  function LenSq(a: Vec2): int {
    Dot(a, a)
  }

  /** The z-component of the cross product: positive when b is a quarter
      turn from a in the positive direction. */
  function Cross(a: Vec2, b: Vec2): int {
    a.x * b.y - a.y * b.x
  }

  /** `rot_ccw`: a quarter turn in the negative direction. */
  function RotCcw(v: Vec2): Vec2 {
    Vec2(v.y, -v.x)
  }

  /** `rot_cw`: a quarter turn in the positive direction. */
  function RotCw(v: Vec2): (r: Vec2)
  {
    Vec2(-v.y, v.x)
  }

  /** A quarter turn is perpendicular to v, of the same length, and on v's
      positive side (negative side for `rot_ccw`). */
  lemma RotationGeometry(v: Vec2)
    ensures Dot(RotCw(v), v) == 0 && LenSq(RotCw(v)) == LenSq(v) && Cross(v, RotCw(v)) == LenSq(v)
    ensures Dot(RotCcw(v), v) == 0 && LenSq(RotCcw(v)) == LenSq(v) && Cross(RotCcw(v), v) == LenSq(v)
  {
  }

  /** The two turns undo each other, and four turns the same way are the
      identity. */
  lemma RotationsInverse(v: Vec2)
    ensures RotCcw(RotCw(v)) == v && RotCw(RotCcw(v)) == v
    ensures RotCw(RotCw(RotCw(RotCw(v)))) == v
    ensures RotCcw(RotCcw(RotCcw(RotCcw(v)))) == v
  {
  }

  /** Turning twice either way is negation. */
  lemma HalfTurn(v: Vec2)
    ensures RotCw(RotCw(v)) == Neg(v) && RotCcw(RotCcw(v)) == Neg(v)
  {
  }

  const Zero: Vec2 := Vec2(0, 0)
  const Up: Vec2 := Vec2(0, -1)
  const Down: Vec2 := Vec2(0, 1)
  const Left: Vec2 := Vec2(-1, 0)
  const Right: Vec2 := Vec2(1, 0)

  /** The four unit directions, each a clockwise quarter turn from the one
      before. */
  lemma UnitsTurn()
    ensures RotCw(Up) == Right && RotCw(Right) == Down
    ensures RotCw(Down) == Left && RotCw(Left) == Up
  {
  }

  /** Opposite directions are negations of each other. */
  lemma UnitsOpposite()
    ensures Up == Neg(Down) && Left == Neg(Right)
  {
  }

  /** `neg`: the additive inverse. */
  function Neg(v: Vec2): (r: Vec2)
    ensures Add(v, r) == Zero
  {
    Vec2(-v.x, -v.y)
  }

  function Add(a: Vec2, b: Vec2): Vec2 {
    Vec2(a.x + b.x, a.y + b.y)
  }

  /** `sub`: the vector that added to b gives a. */
  function Sub(a: Vec2, b: Vec2): (r: Vec2)
    ensures Add(r, b) == a
  {
    Vec2(a.x - b.x, a.y - b.y)
  }

  /** Scalar multiplication. */
  function Mul(v: Vec2, k: int): Vec2 {
    Vec2(v.x * k, v.y * k)
  }

  /** Scaling keeps the direction (zero cross product) and scales the
      squared length by k^2. */
  lemma MulGeometry(v: Vec2, k: int)
    ensures Cross(v, Mul(v, k)) == 0
    ensures LenSq(Mul(v, k)) == k * k * LenSq(v)
  {
    assert LenSq(Mul(v, k)) == (v.x * k) * (v.x * k) + (v.y * k) * (v.y * k);
  }

  /** Scalar division, truncating each component toward zero as Rust's
      integer division does; dividing by zero panics (None). */
  function Div(v: Vec2, k: int): (r: Option<Vec2>)
    ensures r.Some? <==> k != 0
    ensures r.Some? ==> Abs(v.x - r.value.x * k) < Abs(k) && Abs(v.y - r.value.y * k) < Abs(k)
    ensures r.Some? ==> (v.x >= 0 ==> v.x - r.value.x * k >= 0) && (v.x <= 0 ==> v.x - r.value.x * k <= 0)
    ensures r.Some? ==> (v.y >= 0 ==> v.y - r.value.y * k >= 0) && (v.y <= 0 ==> v.y - r.value.y * k <= 0)
  {
    if k == 0 then None else Some(Vec2(TruncDiv(v.x, k), TruncDiv(v.y, k)))
  }

  /** Dividing a multiple of k by k gives back the vector. */
  lemma DivUndoesMul(v: Vec2, k: int)
    requires k != 0
    ensures Div(Mul(v, k), k) == Some(v)
  {
    var m := Mul(v, k);
    var q := Div(m, k).value;
    assert (v.x - q.x) * k == m.x - q.x * k;
    assert (v.y - q.y) * k == m.y - q.y * k;
    NoSmallMultiple(v.x - q.x, k);
    NoSmallMultiple(v.y - q.y, k);
  }

  /** The only multiple of k smaller than |k| in size is 0. */
  lemma NoSmallMultiple(a: int, k: int)
    requires k != 0 && Abs(a * k) < Abs(k)
    ensures a == 0
  {
    if a > 0 && k > 0 {
    } else if a > 0 {
    } else if a < 0 && k > 0 {
    } else if a < 0 {
    }
  }

  /** Negation is an involution. */
  lemma NegInvolution(v: Vec2)
    ensures Neg(Neg(v)) == v
  {
  }

  /** Subtraction undoes addition and the other way round. */
  lemma AddSubCancel(a: Vec2, b: Vec2)
    ensures Sub(Add(a, b), b) == a
    ensures Add(Sub(a, b), b) == a
    ensures Sub(a, b) == Add(a, Neg(b))
  {
  }

  /** Scaling distributes over addition, and scaling by a sum is the sum of
      the scalings. */
  lemma MulDistributes(a: Vec2, b: Vec2, k: int, l: int)
    ensures Mul(Add(a, b), k) == Add(Mul(a, k), Mul(b, k))
    ensures Mul(a, k + l) == Add(Mul(a, k), Mul(a, l))
  {
  }

  /** The compound assignments update the left side in place. */
  function AddAssign(self: Vec2, rhs: Vec2): (r: Vec2)
    ensures r == Add(self, rhs)
  {
    Vec2(self.x + rhs.x, self.y + rhs.y)
  }

  function SubAssign(self: Vec2, rhs: Vec2): (r: Vec2)
    ensures r == Sub(self, rhs)
  {
    Vec2(self.x - rhs.x, self.y - rhs.y)
  }

  function MulAssign(self: Vec2, rhs: int): (r: Vec2)
    ensures r == Mul(self, rhs)
  {
    Vec2(self.x * rhs, self.y * rhs)
  }

  function DivAssign(self: Vec2, rhs: int): (r: Option<Vec2>)
    ensures r == Div(self, rhs)
  {
    if rhs == 0 then None else Some(Vec2(TruncDiv(self.x, rhs), TruncDiv(self.y, rhs)))
  }
}
