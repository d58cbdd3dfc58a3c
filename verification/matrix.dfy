/** The coefficient bookkeeping of the source node: `Eschelon` keeps the
    coefficient rows, their echelon form, the transform that produced it and the
    transform's determinant, with the documented consistency
    transform * coefficients == eschelon. Integer widths are those of the Rust
    fields; `compound_scalars` works in u32 and is modelled with the wrap-around
    of a release build. */
module Matrix {

  const U32_BOUND: int := 0x1_0000_0000

  type U8 = x: int | 0 <= x < 256
  type U32 = x: int | 0 <= x < U32_BOUND
  type U64 = x: int | 0 <= x < 0x1_0000_0000_0000_0000

  datatype Eschelon = Eschelon(
    coefficients: seq<seq<U32>>,
    eschelon: seq<seq<U64>>,
    transform: seq<seq<U64>>,
    determinant: U64)

  /** m is the size x size identity matrix. */
  ghost predicate IsIdentity(m: seq<seq<int>>, size: nat) {
    && |m| == size
    && (forall i :: 0 <= i < size ==> |m[i]| == size)
    && forall i, j :: 0 <= i < size && 0 <= j < size ==> m[i][j] == if i == j then 1 else 0
  }

  /** m is the size x size zero matrix. */
  ghost predicate IsZero(m: seq<seq<int>>, size: nat) {
    && |m| == size
    && (forall i :: 0 <= i < size ==> |m[i]| == size)
    && forall i, j :: 0 <= i < size && 0 <= j < size ==> m[i][j] == 0
  }

  function ZeroMatrix(size: nat): (m: seq<seq<U64>>)
    ensures IsZero(m, size)
  {
    seq(size, _ => seq(size, _ => 0))
  }

  /** `vec![vec![0; size]; size]` with the diagonal set to 1. */
  function Diagonal(size: nat): (m: seq<seq<U32>>)
    ensures IsIdentity(m, size)
  {
    seq(size, i => seq(size, j => if i == j then 1 else 0))
  }

  /** `Eschelon::new`: no coefficient rows yet, an all-zero echelon form and an
      identity transform of determinant 1. */
  function New(size: nat): (e: Eschelon)
    ensures e.coefficients == []
    ensures IsZero(e.eschelon, size)
    ensures IsIdentity(e.transform, size)
    ensures e.determinant == 1
  {
    Eschelon([], ZeroMatrix(size), Diagonal(size), 1)
  }

  /** `Eschelon::new_identity`: coefficients, echelon form and transform are all
      the identity, and the determinant is 1. */
  function NewIdentity(size: nat): (e: Eschelon)
    ensures IsIdentity(e.coefficients, size)
    ensures IsIdentity(e.eschelon, size)
    ensures IsIdentity(e.transform, size)
    ensures e.determinant == 1
  {
    var eschelon := Diagonal(size);
    Eschelon(Diagonal(size), eschelon, eschelon, 1)
  }

  /** `Eschelon::add_row`: the row becomes the last coefficient row; nothing else changes. */
  function AddRow(e: Eschelon, row: seq<U32>): (r: Eschelon)
    ensures |r.coefficients| == |e.coefficients| + 1
    ensures r.coefficients[..|e.coefficients|] == e.coefficients
    ensures r.coefficients[|e.coefficients|] == row
    ensures r.eschelon == e.eschelon && r.transform == e.transform && r.determinant == e.determinant
  {
    e.(coefficients := e.coefficients + [row])
  }

  // ---------------------------------------------------------------------------
  // Matrix product (the consistency invariant)

  /** Sum over k < n of a[i][k] * b[k][j], in unbounded integers. */
  function ProductEntry(a: seq<seq<int>>, b: seq<seq<int>>, i: nat, j: nat, n: nat): int
    requires i < |a| && n <= |a[i]| && n <= |b|
    requires forall k :: 0 <= k < n ==> j < |b[k]|
  {
    if n == 0 then 0 else ProductEntry(a, b, i, j, n - 1) + a[i][n - 1] * b[n - 1][j]
  }

  /** The product of two size x size matrices. */
  function MatMul(a: seq<seq<int>>, b: seq<seq<int>>, size: nat): (m: seq<seq<int>>)
    requires |a| == size && |b| == size
    requires forall i :: 0 <= i < size ==> |a[i]| == size && |b[i]| == size
    ensures |m| == size && forall i :: 0 <= i < size ==> |m[i]| == size
  {
    seq(size, i requires 0 <= i < size =>
      seq(size, j requires 0 <= j < size => ProductEntry(a, b, i, j, size)))
  }

  /** Multiplying by the identity on the left selects row i of b. */
  lemma {:induction false} ProductEntryIdentity(a: seq<seq<int>>, b: seq<seq<int>>, size: nat, i: nat, j: nat, n: nat)
    requires IsIdentity(a, size) && |b| == size
    requires forall k :: 0 <= k < size ==> |b[k]| == size
    requires i < size && j < size && n <= size
    ensures ProductEntry(a, b, i, j, n) == if i < n then b[i][j] else 0
  {
    if n > 0 {
      ProductEntryIdentity(a, b, size, i, j, n - 1);
    }
  }

  /** The consistency invariant transform * coefficients == eschelon holds for
      `new_identity`. */
  lemma NewIdentityConsistent(size: nat)
    ensures MatMul(NewIdentity(size).transform, NewIdentity(size).coefficients, size) == NewIdentity(size).eschelon
  {
    var e := NewIdentity(size);
    var m := MatMul(e.transform, e.coefficients, size);
    forall i | 0 <= i < size
      ensures m[i] == e.eschelon[i]
    {
      forall j | 0 <= j < size
        ensures m[i][j] == e.eschelon[i][j]
      {
        ProductEntryIdentity(e.transform, e.coefficients, size, i, j, size);
      }
    }
  }

  // ---------------------------------------------------------------------------
  // compound_scalars

  function Min(a: nat, b: nat): nat {
    if a < b then a else b
  }

  /** The rows that `zip` pairs with the scalars are long enough to be indexed
      at every column j < |scalars| (Rust panics otherwise). */
  ghost predicate Indexable(coefficients: seq<seq<U32>>, scalars: seq<U8>) {
    forall i :: 0 <= i < Min(|scalars|, |coefficients|) ==> |coefficients[i]| >= |scalars|
  }

  /** Exact sum over i < n of scalars[i] * coefficients[i][j]. */
  function ColumnSum(scalars: seq<U8>, coefficients: seq<seq<U32>>, j: nat, n: nat): nat
    requires n <= |scalars| && n <= |coefficients|
    requires forall i :: 0 <= i < n ==> j < |coefficients[i]|
  {
    if n == 0 then 0 else ColumnSum(scalars, coefficients, j, n - 1) + scalars[n - 1] * coefficients[n - 1][j]
  }

  /** The same sum accumulated the way the u32 iterator does: every product and
      every partial sum wraps modulo 2^32. */
  function WrappingColumnSum(scalars: seq<U8>, coefficients: seq<seq<U32>>, j: nat, n: nat): U32
    requires n <= |scalars| && n <= |coefficients|
    requires forall i :: 0 <= i < n ==> j < |coefficients[i]|
  {
    if n == 0 then 0
    else (WrappingColumnSum(scalars, coefficients, j, n - 1) + (scalars[n - 1] * coefficients[n - 1][j]) % U32_BOUND) % U32_BOUND
  }

  lemma ModAddBoth(a: int, b: int)
    ensures ((a % U32_BOUND) + (b % U32_BOUND)) % U32_BOUND == (a + b) % U32_BOUND
  {
  }

  lemma {:induction false} WrappingIsExactModulo(scalars: seq<U8>, coefficients: seq<seq<U32>>, j: nat, n: nat)
    requires n <= |scalars| && n <= |coefficients|
    requires forall i :: 0 <= i < n ==> j < |coefficients[i]|
    ensures WrappingColumnSum(scalars, coefficients, j, n) == ColumnSum(scalars, coefficients, j, n) % U32_BOUND
  {
    if n > 0 {
      WrappingIsExactModulo(scalars, coefficients, j, n - 1);
      ModAddBoth(ColumnSum(scalars, coefficients, j, n - 1), scalars[n - 1] * coefficients[n - 1][j]);
    }
  }

  /** `compound_scalars`: entry j (for j < |scalars|) is the sum of
      scalars[i] * coefficients[i][j] over the pairs `zip` forms, i.e.
      i < min(|scalars|, |coefficients|), taken modulo 2^32. */
  function CompoundScalars(e: Eschelon, scalars: seq<U8>): (r: seq<U32>)
    requires Indexable(e.coefficients, scalars)
    ensures |r| == |scalars|
    ensures forall j :: 0 <= j < |scalars| ==>
      r[j] == ColumnSum(scalars, e.coefficients, j, Min(|scalars|, |e.coefficients|)) % U32_BOUND
  {
    var n := Min(|scalars|, |e.coefficients|);
    WrappingIsExactEverywhere(scalars, e.coefficients, n);
    seq(|scalars|, j requires 0 <= j < |scalars| => WrappingColumnSum(scalars, e.coefficients, j, n))
  }

  /** When an exact sum fits in a u32, the compounded entry is exact. */
  lemma CompoundExactWhenFits(e: Eschelon, scalars: seq<U8>, j: nat)
    requires Indexable(e.coefficients, scalars) && j < |scalars|
    requires ColumnSum(scalars, e.coefficients, j, Min(|scalars|, |e.coefficients|)) < U32_BOUND
    ensures CompoundScalars(e, scalars)[j] == ColumnSum(scalars, e.coefficients, j, Min(|scalars|, |e.coefficients|))
  {
  }

  lemma WrappingIsExactEverywhere(scalars: seq<U8>, coefficients: seq<seq<U32>>, n: nat)
    requires n <= |scalars| && n <= |coefficients|
    requires forall i :: 0 <= i < n ==> |coefficients[i]| >= |scalars|
    ensures forall j :: 0 <= j < |scalars| ==>
      WrappingColumnSum(scalars, coefficients, j, n) == ColumnSum(scalars, coefficients, j, n) % U32_BOUND
  {
    forall j | 0 <= j < |scalars|
      ensures WrappingColumnSum(scalars, coefficients, j, n) == ColumnSum(scalars, coefficients, j, n) % U32_BOUND
    {
      WrappingIsExactModulo(scalars, coefficients, j, n);
    }
  }

  lemma {:induction false} ColumnSumIdentity(scalars: seq<U8>, coefficients: seq<seq<U32>>, size: nat, j: nat, n: nat)
    requires IsIdentity(coefficients, size) && |scalars| == size
    requires j < size && n <= size
    ensures ColumnSum(scalars, coefficients, j, n) == if j < n then scalars[j] else 0
  {
    if n > 0 {
      ColumnSumIdentity(scalars, coefficients, size, j, n - 1);
    }
  }

  /** On `new_identity(n)`, compounding n scalars returns them unchanged: every
      exact sum is a single u8, so nothing wraps. */
  lemma CompoundIdentity(size: nat, scalars: seq<U8>)
    requires |scalars| == size
    ensures Indexable(NewIdentity(size).coefficients, scalars)
    ensures CompoundScalars(NewIdentity(size), scalars) == scalars
  {
    var e := NewIdentity(size);
    var r := CompoundScalars(e, scalars);
    forall j | 0 <= j < size
      ensures r[j] == scalars[j]
    {
      ColumnSumIdentity(scalars, e.coefficients, size, j, size);
      CompoundExactWhenFits(e, scalars, j);
    }
  }

  /** `add_row` extends the sums only when `zip` reaches the new row, that is
      when there are more scalars than previous rows. */
  lemma AddRowCompound(e: Eschelon, row: seq<U32>, scalars: seq<U8>, j: nat)
    requires Indexable(AddRow(e, row).coefficients, scalars)
    requires j < |scalars|
    ensures Indexable(e.coefficients, scalars)
    ensures var before := ColumnSum(scalars, e.coefficients, j, Min(|scalars|, |e.coefficients|));
            var after := ColumnSum(scalars, AddRow(e, row).coefficients, j, Min(|scalars|, |e.coefficients| + 1));
            after == if |e.coefficients| < |scalars| then before + scalars[|e.coefficients|] * row[j] else before
  {
    var c := e.coefficients;
    var c' := AddRow(e, row).coefficients;
    assert forall i :: 0 <= i < |c| ==> c'[i] == c[i];
    ColumnSumPrefix(scalars, c, c', j, Min(|scalars|, |c|));
  }

  /** Column sums only look at the rows they reach. */
  lemma {:induction false} ColumnSumPrefix(scalars: seq<U8>, c: seq<seq<U32>>, c': seq<seq<U32>>, j: nat, n: nat)
    requires n <= |scalars| && n <= |c| && n <= |c'|
    requires forall i :: 0 <= i < n ==> c[i] == c'[i] && j < |c[i]|
    ensures ColumnSum(scalars, c, j, n) == ColumnSum(scalars, c', j, n)
  {
    if n > 0 {
      ColumnSumPrefix(scalars, c, c', j, n - 1);
    }
  }
}
