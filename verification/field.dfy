/** The ristretto255 scalar field Z_L (section 4 of RFC 9496; the order L is the
    one of section 5.1 of RFC 8032) and the prime-order group it acts on. Every
    group element used by the system is the basepoint times a scalar, so a point
    is represented exactly by its discrete logarithm. */
module Field {

  /** The group order L = 2^252 + 27742317777372353535851937790883648493. */
  const L: int := 0x1000000000000000000000000000000014def9dea2f79cd65812631a5cf5d3ed

  type Scalar = x: int | 0 <= x < L

  /** Reduction of an integer into the field (`Scalar::from_bytes_mod_order`). */
  function Reduce(x: int): (r: Scalar)
    ensures x - r == (x / L) * L
  {
    x % L
  }

  function Add(a: Scalar, b: Scalar): Scalar {
    (a + b) % L
  }

  function Mul(a: Scalar, b: Scalar): Scalar {
    (a * b) % L
  }

  /** Adding a multiple of L does not change the residue. */
  lemma ModShift(k: int, z: int)
    ensures (k * L + z) % L == z % L
  {
    var q := z / L;
    var r := z % L;
    assert z == q * L + r;
    assert k * L + z == (k + q) * L + r;
  }

  lemma ModAddLeft(x: int, y: int)
    ensures ((x % L) + y) % L == (x + y) % L
  {
    var q := x / L;
    assert x + y == q * L + ((x % L) + y);
    ModShift(q, (x % L) + y);
  }

  lemma ModMulLeft(x: int, y: int)
    ensures ((x % L) * y) % L == (x * y) % L
  {
    var q := x / L;
    var r := x % L;
    assert x == q * L + r;
    assert x * y == (q * y) * L + r * y by {
      assert x * y == (q * L + r) * y;
      assert (q * L + r) * y == q * L * y + r * y;
    }
    ModShift(q * y, r * y);
  }

  lemma AddComm(a: Scalar, b: Scalar)
    ensures Add(a, b) == Add(b, a)
  {
  }

  lemma AddAssoc(a: Scalar, b: Scalar, c: Scalar)
    ensures Add(Add(a, b), c) == Add(a, Add(b, c))
  {
    ModAddLeft(a + b, c);
    ModAddLeft(b + c, a);
  }

  lemma MulComm(a: Scalar, b: Scalar)
    ensures Mul(a, b) == Mul(b, a)
  {
  }

  lemma MulOne(a: Scalar)
    ensures Mul(a, 1) == a && Mul(1, a) == a
  {
  }

  lemma MulZero(a: Scalar)
    ensures Mul(a, 0) == 0 && Mul(0, a) == 0
  {
  }

  lemma MulAssoc(a: Scalar, b: Scalar, c: Scalar)
    ensures Mul(Mul(a, b), c) == Mul(a, Mul(b, c))
  {
    ModMulLeft(a * b, c);
    ModMulLeft(b * c, a);
    assert (a * b) * c == (b * c) * a;
  }

  lemma MulAddDistrib(a: Scalar, b: Scalar, c: Scalar)
    ensures Mul(a, Add(b, c)) == Add(Mul(a, b), Mul(a, c))
  {
    var s := (b + c) % L;
    calc {
      Mul(a, Add(b, c));
      (a * s) % L;
      { assert a * s == s * a; }
      (s * a) % L;
      { ModMulLeft(b + c, a); }
      ((b + c) * a) % L;
      { assert (b + c) * a == a * b + a * c; }
      (a * b + a * c) % L;
      { ModAddLeft(a * b, a * c); }
      ((a * b) % L + a * c) % L;
      { ModAddLeft(a * c, (a * b) % L); }
      ((a * b) % L + (a * c) % L) % L;
      Add(Mul(a, b), Mul(a, c));
    }
  }

  lemma AddShuffle(a: Scalar, b: Scalar, c: Scalar, d: Scalar)
    ensures Add(Add(a, b), Add(c, d)) == Add(Add(a, c), Add(b, d))
  {
    AddAssoc(a, b, Add(c, d));
    AddAssoc(b, c, d);
    AddComm(b, c);
    AddAssoc(c, b, d);
    AddAssoc(a, c, Add(b, d));
  }

  lemma MulAddDistribRight(a: Scalar, b: Scalar, c: Scalar)
    ensures Mul(Add(a, b), c) == Add(Mul(a, c), Mul(b, c))
  {
    MulComm(Add(a, b), c);
    MulAddDistrib(c, a, b);
    MulComm(c, a);
    MulComm(c, b);
  }

  /** A group element, held as its discrete logarithm to the basepoint. */
  datatype Point = Point(log: Scalar)

  const Basepoint: Point := Point(1)
  const Identity: Point := Point(0)

  function PointAdd(p: Point, q: Point): Point {
    Point(Add(p.log, q.log))
  }

  /** Scalar multiplication `s * P`. */
  function ScalarMul(s: Scalar, p: Point): Point {
    Point(Mul(s, p.log))
  }
}
