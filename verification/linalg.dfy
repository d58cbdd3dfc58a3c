/** Vectors over the scalar field: the dot product behind `multiscalar_mul` and
    the linear combination of rows behind every coded chunk. */
module LinAlg {
  import opened Field

  type Vector = seq<Scalar>

  function Zeros(n: nat): (z: Vector)
    ensures |z| == n
    ensures forall i :: 0 <= i < n ==> z[i] == 0
  {
    seq(n, _ => 0)
  }

  function VAdd(u: Vector, v: Vector): (r: Vector)
    requires |u| == |v|
    ensures |r| == |u|
  {
    seq(|u|, i requires 0 <= i < |u| => Add(u[i], v[i]))
  }

  function VScale(a: Scalar, u: Vector): (r: Vector)
    ensures |r| == |u|
  {
    seq(|u|, i requires 0 <= i < |u| => Mul(a, u[i]))
  }

  /** Sum of u[i] * v[i], accumulated in the field. */
  function Dot(u: Vector, v: Vector): Scalar
    requires |u| == |v|
  {
    if |u| == 0 then 0 else Add(Mul(u[0], v[0]), Dot(u[1..], v[1..]))
  }

  /** Every row of `rows` has exactly `w` entries. */
  ghost predicate Rect(rows: seq<Vector>, w: nat) {
    forall k :: 0 <= k < |rows| ==> |rows[k]| == w
  }

  /** The linear combination c[0] * rows[0] + ... + c[n-1] * rows[n-1] of rows of width `w`. */
  function Combine(c: Vector, rows: seq<Vector>, w: nat): (r: Vector)
    requires |c| == |rows| && Rect(rows, w)
    ensures |r| == w
  {
    if |c| == 0 then Zeros(w)
    else VAdd(VScale(c[0], rows[0]), Combine(c[1..], rows[1..], w))
  }

  /** Column `i` of a matrix given by its rows. */
  function Column(rows: seq<Vector>, i: nat): (col: Vector)
    requires forall k :: 0 <= k < |rows| ==> i < |rows[k]|
    ensures |col| == |rows|
  {
    seq(|rows|, k requires 0 <= k < |rows| => rows[k][i])
  }

  /** The dot product of each row with `g`. */
  function Dots(rows: seq<Vector>, g: Vector): (r: Vector)
    requires Rect(rows, |g|)
    ensures |r| == |rows|
  {
    seq(|rows|, k requires 0 <= k < |rows| => Dot(rows[k], g))
  }

  /** The i-th standard basis vector of length n. */
  function Unit(n: nat, i: nat): (e: Vector)
    ensures |e| == n
  {
    seq(n, k => if k == i then 1 else 0)
  }

  /** The rows of the n x n identity matrix. */
  function IdentityRows(n: nat): (rows: seq<Vector>)
    ensures |rows| == n && Rect(rows, n)
  {
    seq(n, (i: nat) => Unit(n, i))
  }

  lemma {:induction false} DotZeros(g: Vector)
    ensures Dot(Zeros(|g|), g) == 0
    decreases |g|
  {
    if |g| > 0 {
      assert Zeros(|g|)[1..] == Zeros(|g| - 1);
      DotZeros(g[1..]);
      MulZero(g[0]);
    }
  }

  lemma {:induction false} DotAdd(x: Vector, y: Vector, g: Vector)
    requires |x| == |y| == |g|
    ensures Dot(VAdd(x, y), g) == Add(Dot(x, g), Dot(y, g))
    decreases |g|
  {
    if |g| > 0 {
      assert VAdd(x, y)[1..] == VAdd(x[1..], y[1..]);
      DotAdd(x[1..], y[1..], g[1..]);
      MulAddDistribRight(x[0], y[0], g[0]);
      AddShuffle(Mul(x[0], g[0]), Mul(y[0], g[0]), Dot(x[1..], g[1..]), Dot(y[1..], g[1..]));
    }
  }

  lemma {:induction false} DotScale(a: Scalar, x: Vector, g: Vector)
    requires |x| == |g|
    ensures Dot(VScale(a, x), g) == Mul(a, Dot(x, g))
    decreases |g|
  {
    if |g| == 0 {
      MulZero(a);
    } else {
      assert VScale(a, x)[1..] == VScale(a, x[1..]);
      DotScale(a, x[1..], g[1..]);
      MulAssoc(a, x[0], g[0]);
      MulAddDistrib(a, Mul(x[0], g[0]), Dot(x[1..], g[1..]));
    }
  }

  /** Taking a dot product commutes with forming a linear combination:
      (sum_k c[k] * rows[k]) . g == sum_k c[k] * (rows[k] . g).
      This is the homomorphism every commitment check of the protocol rests on. */
  lemma {:induction false} DotCombine(c: Vector, rows: seq<Vector>, g: Vector)
    requires |c| == |rows| && Rect(rows, |g|)
    ensures Dot(Combine(c, rows, |g|), g) == Dot(c, Dots(rows, g))
    decreases |c|
  {
    if |c| == 0 {
      DotZeros(g);
    } else {
      var rest := Combine(c[1..], rows[1..], |g|);
      DotAdd(VScale(c[0], rows[0]), rest, g);
      DotScale(c[0], rows[0], g);
      DotCombine(c[1..], rows[1..], g);
      assert Dots(rows, g)[1..] == Dots(rows[1..], g);
    }
  }

  /** Entry i of a linear combination is the dot product of the coefficients
      with column i. */
  lemma {:induction false} CombineAt(c: Vector, rows: seq<Vector>, w: nat, i: nat)
    requires |c| == |rows| && Rect(rows, w) && i < w
    ensures Combine(c, rows, w)[i] == Dot(c, Column(rows, i))
    decreases |c|
  {
    if |c| > 0 {
      CombineAt(c[1..], rows[1..], w, i);
      assert Column(rows, i)[1..] == Column(rows[1..], i);
    }
  }

  lemma {:induction false} DotComm(u: Vector, v: Vector)
    requires |u| == |v|
    ensures Dot(u, v) == Dot(v, u)
    decreases |u|
  {
    if |u| > 0 {
      DotComm(u[1..], v[1..]);
      MulComm(u[0], v[0]);
    }
  }

  /** e_i . g == g[i]. */
  lemma {:induction false} DotUnit(i: nat, g: Vector)
    requires i < |g|
    ensures Dot(Unit(|g|, i), g) == g[i]
  {
    DotUnitFrom(i, 0, g);
  }

  /** Helper for DotUnit: the suffix of e_i from position `from` on. */
  lemma {:induction false} DotUnitFrom(i: nat, from: nat, g: Vector)
    requires from <= |g|
    ensures Dot(Unit(|g|, i)[from..], g[from..]) == if from <= i < |g| then g[i] else 0
    decreases |g| - from
  {
    if from < |g| {
      DotUnitFrom(i, from + 1, g);
      assert Unit(|g|, i)[from..][1..] == Unit(|g|, i)[from + 1..];
      assert g[from..][1..] == g[from + 1..];
      MulOne(g[from]);
      MulZero(g[from]);
    }
  }

  /** Combining the identity rows with coefficients s gives back s. */
  lemma CombineIdentity(s: Vector)
    ensures Combine(s, IdentityRows(|s|), |s|) == s
  {
    var n := |s|;
    var r := Combine(s, IdentityRows(n), n);
    forall i | 0 <= i < n
      ensures r[i] == s[i]
    {
      CombineAt(s, IdentityRows(n), n, i);
      assert Column(IdentityRows(n), i) == Unit(n, i);
      DotComm(s, Unit(n, i));
      DotUnit(i, s);
    }
  }
  /** Combining with e_i picks row i. */
  lemma CombineUnit(i: nat, rows: seq<Vector>, w: nat)
    requires i < |rows| && Rect(rows, w)
    ensures Combine(Unit(|rows|, i), rows, w) == rows[i]
  {
    var r := Combine(Unit(|rows|, i), rows, w);
    forall k | 0 <= k < w
      ensures r[k] == rows[i][k]
    {
      CombineAt(Unit(|rows|, i), rows, w, k);
      DotUnit(i, Column(rows, k));
    }
  }

  /** Each row of `coeffRows` used as coefficients over `base`. */
  function CombineEach(coeffRows: seq<Vector>, base: seq<Vector>, w: nat): (r: seq<Vector>)
    requires Rect(coeffRows, |base|) && Rect(base, w)
    ensures |r| == |coeffRows| && Rect(r, w)
  {
    seq(|coeffRows|, j requires 0 <= j < |coeffRows| => Combine(coeffRows[j], base, w))
  }

  /** Linear combinations compose: combining combinations of `base` with
      coefficients c is combining `base` with the compound coefficients
      c[0] * coeffRows[0] + ... . */
  lemma CombineAssoc(c: Vector, coeffRows: seq<Vector>, base: seq<Vector>, w: nat)
    requires |c| == |coeffRows| && Rect(coeffRows, |base|) && Rect(base, w)
    ensures Combine(c, CombineEach(coeffRows, base, w), w) == Combine(Combine(c, coeffRows, |base|), base, w)
  {
    var mixed := CombineEach(coeffRows, base, w);
    var lhs := Combine(c, mixed, w);
    var compound := Combine(c, coeffRows, |base|);
    var rhs := Combine(compound, base, w);
    forall k | 0 <= k < w
      ensures lhs[k] == rhs[k]
    {
      var col := Column(base, k);
      CombineAt(c, mixed, w, k);
      forall j | 0 <= j < |coeffRows|
        ensures Column(mixed, k)[j] == Dots(coeffRows, col)[j]
      {
        CombineAt(coeffRows[j], base, w, k);
      }
      assert Column(mixed, k) == Dots(coeffRows, col);
      DotCombine(c, coeffRows, col);
      CombineAt(compound, base, w, k);
    }
  }
}
