/** Vectors and matrices over the field. */
module LinearAlgebra {
  import opened Gf256

  type Vec = seq<Gf>
  type Matrix = seq<Vec>

  ghost predicate IsMatrix(a: Matrix, rows: nat, cols: nat) {
    |a| == rows && forall i :: 0 <= i < rows ==> |a[i]| == cols
  }

  // ---------- vectors ----------

  ghost function Sum(u: Vec, v: Vec): (r: Vec)
    requires |u| == |v|
    ensures |r| == |u| && forall i :: 0 <= i < |u| ==> r[i] == Add(u[i], v[i])
  {
    seq(|u|, i requires 0 <= i < |u| => Add(u[i], v[i]))
  }

  ghost function Scale(c: Gf, u: Vec): (r: Vec)
    ensures |r| == |u| && forall i :: 0 <= i < |u| ==> r[i] == Mul(c, u[i])
  {
    seq(|u|, i requires 0 <= i < |u| => Mul(c, u[i]))
  }

  ghost function Zeros(k: nat): (r: Vec)
    ensures |r| == k && forall i :: 0 <= i < k ==> r[i] == ZERO
  {
    seq(k, _ => ZERO)
  }

  /** The j-th row of the identity matrix. */
  ghost function Unit(k: nat, j: nat): (r: Vec)
    ensures |r| == k && forall i :: 0 <= i < k ==> r[i] == if i == j then ONE else ZERO
  {
    seq(k, i => if i == j then ONE else ZERO)
  }

  function Swap<T>(s: seq<T>, i: nat, j: nat): (r: seq<T>)
    requires i < |s| && j < |s|
    ensures |r| == |s| && r[i] == s[j] && r[j] == s[i]
    ensures forall m :: 0 <= m < |s| && m != i && m != j ==> r[m] == s[m]
  {
    s[i := s[j]][j := s[i]]
  }

  ghost function Dot(u: Vec, v: Vec): Gf
    requires |u| == |v|
  {
    if u == [] then ZERO else Add(Mul(u[0], v[0]), Dot(u[1..], v[1..]))
  }

  lemma {:induction false} DotComm(u: Vec, v: Vec)
    requires |u| == |v|
    ensures Dot(u, v) == Dot(v, u)
  {
    if u != [] {
      DotComm(u[1..], v[1..]);
      MulComm(u[0], v[0]);
    }
  }

  lemma {:induction false} DotSum(u: Vec, v: Vec, w: Vec)
    requires |u| == |v| == |w|
    ensures Dot(Sum(u, v), w) == Add(Dot(u, w), Dot(v, w))
  {
    if u == [] {
      AddZero(ZERO);
    } else {
      assert Sum(u, v)[1..] == Sum(u[1..], v[1..]);
      DotSum(u[1..], v[1..], w[1..]);
      MulAdd(u[0], v[0], w[0]);
      AddSwap(Mul(u[0], w[0]), Mul(v[0], w[0]), Dot(u[1..], w[1..]), Dot(v[1..], w[1..]));
    }
  }

  lemma {:induction false} DotScale(c: Gf, u: Vec, v: Vec)
    requires |u| == |v|
    ensures Dot(Scale(c, u), v) == Mul(c, Dot(u, v))
  {
    if u == [] {
      MulZero(c);
    } else {
      assert Scale(c, u)[1..] == Scale(c, u[1..]);
      DotScale(c, u[1..], v[1..]);
      MulAssoc(c, u[0], v[0]);
      MulAdd(Mul(u[0], v[0]), Dot(u[1..], v[1..]), c);
    }
  }

  lemma {:induction false} DotZeros(k: nat, v: Vec)
    requires |v| == k
    ensures Dot(Zeros(k), v) == ZERO
  {
    if k > 0 {
      assert Zeros(k)[1..] == Zeros(k - 1);
      DotZeros(k - 1, v[1..]);
      MulZero(v[0]);
      AddZero(ZERO);
    }
  }

  /** Replacing one coordinate on either side replaces one summand. */
  lemma {:induction false} DotReplace(u: Vec, v: Vec, c: nat, e: Gf, w: Gf)
    requires |u| == |v| && c < |u|
    ensures Dot(u[c := e], v[c := w]) == Add(Dot(u[c := ZERO], v), Mul(e, w))
  {
    MulZero(v[0]);
    if c == 0 {
      var rest := Dot(u[1..], v[1..]);
      assert u[c := e][1..] == u[1..] == u[c := ZERO][1..] && v[c := w][1..] == v[1..];
      AddZero(rest);
      AddComm(rest, Mul(e, w));
    } else {
      assert u[c := e][1..] == u[1..][c - 1 := e] && u[c := ZERO][1..] == u[1..][c - 1 := ZERO];
      assert v[c := w][1..] == v[1..][c - 1 := w];
      DotReplace(u[1..], v[1..], c - 1, e, w);
      AddAssoc(Mul(u[0], v[0]), Dot(u[1..][c - 1 := ZERO], v[1..]), Mul(e, w));
    }
  }

  lemma DotUnit(u: Vec, j: nat)
    requires j < |u|
    ensures Dot(u, Unit(|u|, j)) == u[j] && Dot(Unit(|u|, j), u) == u[j]
  {
    var z := Zeros(|u|);
    DotReplace(u, z, j, u[j], ONE);
    assert u[j := u[j]] == u && z[j := ONE] == Unit(|u|, j);
    DotComm(u[j := ZERO], z);
    DotZeros(|u|, u[j := ZERO]);
    MulOne(u[j]);
    AddZero(u[j]);
    DotComm(u, Unit(|u|, j));
  }

  lemma DotSwap(u: Vec, v: Vec, i: nat, j: nat)
    requires |u| == |v| && i < |u| && j < |u|
    ensures Dot(Swap(u, i, j), Swap(v, i, j)) == Dot(u, v)
  {
    if i == j {
      assert Swap(u, i, j) == u && Swap(v, i, j) == v;
    } else {
      DotTwo(u, v, i, j, u[i], v[i], u[j], v[j]);
      DotTwo(u, v, i, j, u[j], v[j], u[i], v[i]);
      assert u[i := u[i]][j := u[j]] == u && v[i := v[i]][j := v[j]] == v;
      AddSwapLast(Dot(u[i := ZERO][j := ZERO], v), Mul(u[i], v[i]), Mul(u[j], v[j]));
    }
  }

  lemma AddSwapLast(a: Gf, b: Gf, c: Gf)
    ensures Add(Add(a, b), c) == Add(Add(a, c), b)
  {
    AddAssoc(a, b, c);
    AddComm(b, c);
    AddAssoc(a, c, b);
  }

  lemma DotTwo(u: Vec, v: Vec, i: nat, j: nat, ui: Gf, vi: Gf, uj: Gf, vj: Gf)
    requires |u| == |v| && i < |u| && j < |u| && i != j
    ensures Dot(u[i := ui][j := uj], v[i := vi][j := vj])
         == Add(Add(Dot(u[i := ZERO][j := ZERO], v), Mul(ui, vi)), Mul(uj, vj))
  {
    DotReplace(u[i := ui], v[i := vi], j, uj, vj);
    assert u[i := ui][j := ZERO] == u[j := ZERO][i := ui];
    DotReplace(u[j := ZERO], v, i, ui, vi);
    assert u[j := ZERO][i := ZERO] == u[i := ZERO][j := ZERO];
  }

  // ---------- matrices ----------

  ghost function Apply(a: Matrix, x: Vec): (y: Vec)
    requires IsMatrix(a, |a|, |x|)
    ensures |y| == |a| && forall i :: 0 <= i < |a| ==> y[i] == Dot(a[i], x)
  {
    seq(|a|, i requires 0 <= i < |a| => Dot(a[i], x))
  }

  ghost function Column(b: Matrix, j: nat): (c: Vec)
    requires forall i :: 0 <= i < |b| ==> j < |b[i]|
    ensures |c| == |b| && forall i :: 0 <= i < |b| ==> c[i] == b[i][j]
  {
    seq(|b|, i requires 0 <= i < |b| => b[i][j])
  }

  /** The row vector a times the matrix b, which has m columns. */
  ghost function RowTimes(a: Vec, b: Matrix, m: nat): (r: Vec)
    requires IsMatrix(b, |a|, m)
    ensures |r| == m && forall j :: 0 <= j < m ==> r[j] == Dot(a, Column(b, j))
  {
    seq(m, j requires 0 <= j < m => Dot(a, Column(b, j)))
  }

  ghost function MatMul(a: Matrix, b: Matrix, n: nat, k: nat, m: nat): (r: Matrix)
    requires IsMatrix(a, n, k) && IsMatrix(b, k, m)
    ensures IsMatrix(r, n, m) && forall i :: 0 <= i < n ==> r[i] == RowTimes(a[i], b, m)
  {
    seq(n, i requires 0 <= i < n => RowTimes(a[i], b, m))
  }

  ghost function Identity(k: nat): (r: Matrix)
    ensures IsMatrix(r, k, k) && forall i :: 0 <= i < k ==> r[i] == Unit(k, i)
  {
    seq(k, i requires 0 <= i < k => Unit(k, i))
  }

  /** (a b) x = a (b x). */
  lemma {:induction false} RowTimesApply(a: Vec, b: Matrix, x: Vec)
    requires IsMatrix(b, |a|, |x|)
    ensures Dot(RowTimes(a, b, |x|), x) == Dot(a, Apply(b, x))
  {
    var m := |x|;
    if a == [] {
      assert RowTimes(a, b, m) == Zeros(m) by {
        assert forall j :: 0 <= j < m ==> Dot(a, Column(b, j)) == ZERO;
      }
      DotZeros(m, x);
    } else {
      var rest := RowTimes(a[1..], b[1..], m);
      forall j | 0 <= j < m ensures RowTimes(a, b, m)[j] == Add(Mul(a[0], b[0][j]), rest[j]) {
        assert Column(b, j)[1..] == Column(b[1..], j);
      }
      assert RowTimes(a, b, m) == Sum(Scale(a[0], b[0]), rest);
      DotSum(Scale(a[0], b[0]), rest, x);
      DotScale(a[0], b[0], x);
      RowTimesApply(a[1..], b[1..], x);
      assert Apply(b, x)[1..] == Apply(b[1..], x);
    }
  }

  lemma ApplyIdentity(x: Vec)
    ensures Apply(Identity(|x|), x) == x
  {
    forall i | 0 <= i < |x| ensures Apply(Identity(|x|), x)[i] == x[i] {
      DotUnit(x, i);
    }
  }

  lemma ApplyUnit(a: Matrix, k: nat, j: nat)
    requires IsMatrix(a, |a|, k) && j < k
    ensures Apply(a, Unit(k, j)) == Column(a, j)
  {
    forall i | 0 <= i < |a| ensures Apply(a, Unit(k, j))[i] == a[i][j] {
      DotUnit(a[i], j);
    }
  }

  // ---------- inverses ----------

  ghost predicate Solves(a: Matrix, x: Vec, y: Vec) {
    IsMatrix(a, |a|, |x|) && Apply(a, x) == y
  }

  /** b undoes a and a undoes b, as maps on vectors. */
  ghost predicate Inverts(a: Matrix, b: Matrix, k: nat) {
    && IsMatrix(a, k, k) && IsMatrix(b, k, k)
    && forall x: Vec, y: Vec {:trigger Solves(a, x, y)} | |x| == |y| == k :: Solves(a, x, y) <==> Solves(b, y, x)
  }

  /** Some non-zero vector is sent to zero. */
  ghost predicate Singular(a: Matrix, k: nat) {
    && IsMatrix(a, k, k)
    && exists x: Vec :: |x| == k && x != Zeros(k) && Solves(a, x, Zeros(k))
  }

  ghost predicate IsInverseMatrix(a: Matrix, b: Matrix, k: nat) {
    && IsMatrix(a, k, k) && IsMatrix(b, k, k)
    && MatMul(a, b, k, k, k) == Identity(k)
    && MatMul(b, a, k, k, k) == Identity(k)
  }

  ghost predicate Invertible(a: Matrix, k: nat) {
    exists b: Matrix :: IsInverseMatrix(a, b, k)
  }

  lemma MatMulApply(a: Matrix, b: Matrix, x: Vec, k: nat)
    requires IsMatrix(a, k, k) && IsMatrix(b, k, k) && |x| == k
    ensures Apply(MatMul(a, b, k, k, k), x) == Apply(a, Apply(b, x))
  {
    forall i | 0 <= i < k ensures Apply(MatMul(a, b, k, k, k), x)[i] == Apply(a, Apply(b, x))[i] {
      RowTimesApply(a[i], b, x);
    }
  }

  /** A matrix that fixes every vector is the identity. */
  lemma FixesAll(a: Matrix, k: nat)
    requires IsMatrix(a, k, k)
    requires forall x: Vec :: |x| == k ==> Apply(a, x) == x
    ensures a == Identity(k)
  {
    forall i, j | 0 <= i < k && 0 <= j < k ensures a[i][j] == Identity(k)[i][j] {
      ApplyUnit(a, k, j);
      assert Apply(a, Unit(k, j)) == Unit(k, j);
      assert Column(a, j)[i] == a[i][j];
    }
    forall i | 0 <= i < k ensures a[i] == Identity(k)[i] {
    }
  }

  /** The two readings of "inverse" agree. */
  lemma InvertsIsInverse(a: Matrix, b: Matrix, k: nat)
    ensures Inverts(a, b, k) <==> IsInverseMatrix(a, b, k)
  {
    if Inverts(a, b, k) {
      forall x: Vec | |x| == k ensures Apply(MatMul(a, b, k, k, k), x) == x && Apply(MatMul(b, a, k, k, k), x) == x {
        MatMulApply(a, b, x, k);
        MatMulApply(b, a, x, k);
        assert Solves(a, x, Apply(a, x)) && Solves(b, x, Apply(b, x));
        assert Solves(a, Apply(b, x), x);
      }
      FixesAll(MatMul(a, b, k, k, k), k);
      FixesAll(MatMul(b, a, k, k, k), k);
    }
    if IsInverseMatrix(a, b, k) {
      forall x: Vec, y: Vec | |x| == |y| == k ensures Solves(a, x, y) <==> Solves(b, y, x) {
        MatMulApply(a, b, y, k);
        MatMulApply(b, a, x, k);
        ApplyIdentity(x);
        ApplyIdentity(y);
      }
    }
  }

  /** A matrix with an inverse is not singular. */
  lemma InvertibleNotSingular(a: Matrix, b: Matrix, k: nat)
    requires Inverts(a, b, k)
    ensures !Singular(a, k)
  {
    forall x: Vec | |x| == k && Solves(a, x, Zeros(k)) ensures x == Zeros(k) {
      assert Solves(b, Zeros(k), x);
      forall i | 0 <= i < k ensures x[i] == ZERO {
        DotComm(b[i], Zeros(k));
        DotZeros(k, b[i]);
      }
    }
  }

  /** A singular matrix has no inverse. */
  lemma SingularNotInvertible(a: Matrix, k: nat)
    requires Singular(a, k)
    ensures !Invertible(a, k)
  {
    hide Singular, Inverts, IsInverseMatrix;
    forall b: Matrix ensures !IsInverseMatrix(a, b, k) {
      InvertsIsInverse(a, b, k);
      if Inverts(a, b, k) {
        InvertibleNotSingular(a, b, k);
      }
    }
  }
}
