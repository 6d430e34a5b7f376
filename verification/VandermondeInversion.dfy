/** Inverting a Vandermonde matrix in place by synthetic division
    (rtp/fec/fec_matrix.c, matrix_inv_vandermonde). */
module VandermondeInversion {
  import opened Pigeonhole
  import opened Gf256
  import opened LinearAlgebra
  import opened GaloisTables
  import opened FlatMatrix
  import opened Polynomials

  /** The points of a Vandermonde matrix stand in its second column. */
  ghost function Points(m: Matrix, k: nat): (ps: seq<Gf>)
    requires IsMatrix(m, k, k) && k > 1
    ensures |ps| == k && forall i :: 0 <= i < k ==> ps[i] == m[i][1]
  {
    seq(k, i requires 0 <= i < k => m[i][1])
  }

  /** The i low coefficients of the product over the first i points, moved to the end of k places. */
  ghost function Padded(ps: seq<Gf>, k: nat, i: nat): (c: Vec)
    requires i <= k == |ps|
    ensures |c| == k
  {
    Zeros(k - i) + Master(ps[..i])[..i]
  }

  /** One more factor x + p: shifted copy plus p times the old coefficients. */
  lemma MasterStep(ps: seq<Gf>, i: nat, t: nat)
    requires i < |ps| && t <= i
    ensures Master(ps[..i + 1])[t] ==
      Add(if t == 0 then ZERO else Master(ps[..i])[t - 1], Mul(ps[i], Master(ps[..i])[t]))
  {
    assert ps[..i + 1][..i] == ps[..i];
  }

  lemma PaddedStep(ps: seq<Gf>, k: nat, i: nat, j: nat)
    requires i < k == |ps| && j < k
    ensures j < k - 1 - i ==> Padded(ps, k, i + 1)[j] == Padded(ps, k, i)[j]
    ensures k - 1 - i <= j < k - 1 ==>
      Padded(ps, k, i + 1)[j] == Add(Padded(ps, k, i)[j], Mul(ps[i], Padded(ps, k, i)[j + 1]))
    ensures j == k - 1 ==> Padded(ps, k, i + 1)[j] == Add(Padded(ps, k, i)[j], ps[i])
  {
    hide Master;
    if k - 1 - i <= j {
      MasterStep(ps, i, j - (k - 1 - i));
      MulOne(ps[i]);
    }
  }

  /** Multiplies the polynomial in c by x + ps[i], from the low end up. */
  method MultiplyIn(gf: Tables, c: array<Gf>, k: nat, i: nat, pI: Gf, ghost ps: seq<Gf>)
    requires gf.Ready() && c.Length == k == |ps| && 0 < i < k
    requires c[..] == Padded(ps, k, i) && pI == ps[i]
    modifies c
    ensures c[..] == Padded(ps, k, i + 1)
  {
    hide Tables.Ready, Tables.Times, Plus, Padded;
    ghost var u, v := Padded(ps, k, i), Padded(ps, k, i + 1);
    forall j | 0 <= j < k - 1 - i ensures v[j] == u[j] {
      PaddedStep(ps, k, i, j);
    }
    for j := k - 1 - i to k - 1
      invariant c[..j] == v[..j] && c[j..] == u[j..]
    {
      PaddedStep(ps, k, i, j);
      assert c[j] == u[j..][0] && c[j + 1] == u[j..][1];
      c[j] := Plus(c[j], gf.Times(pI, c[j + 1]));
    }
    PaddedStep(ps, k, i, k - 1);
    assert c[k - 1] == u[k - 1..][0];
    c[k - 1] := Plus(c[k - 1], pI);
  }

  /** The coefficients of the product of all x + p, without the leading one. */
  method MasterCoefficients(gf: Tables, p: array<Gf>, k: nat) returns (c: array<Gf>)
    requires gf.Ready() && p.Length == k && k > 1
    ensures fresh(c) && c.Length == k && c[..] == Master(p[..])[..k]
  {
    hide Tables.Ready, Master;
    ghost var ps := p[..];
    c := new Gf[k](_ => ZERO);
    c[k - 1] := p[0];
    FirstMaster(ps);
    assert c[..] == Padded(ps, k, 1);
    for i := 1 to k
      invariant c[..] == Padded(ps, k, i)
    {
      MultiplyIn(gf, c, k, i, p[i], ps);
    }
    assert ps[..k] == ps;
  }

  lemma FirstMaster(ps: seq<Gf>)
    requires |ps| > 0
    ensures Master(ps[..1])[0] == ps[0]
  {
    MasterStep(ps, 0, 0);
    assert ps[..0] == [];
    MulOne(ps[0]);
    AddZero(ps[0]);
  }

  /** Synthetic division by x + x0, and the value of the quotient at x0. */
  method SyntheticDivision(gf: Tables, c: array<Gf>, b: array<Gf>, k: nat, x: Gf, ghost master: Vec) returns (t: Gf)
    requires gf.Ready() && c.Length == b.Length == k && c != b && k > 0
    requires |master| == k + 1 && c[..] == master[..k] && master[k] == ONE
    modifies b
    ensures b[..] == Quot(master, x) && t == Eval(Quot(master, x), x)
  {
    hide Tables.Ready, Tables.Times, Plus, Quot, Eval;
    ghost var q := Quot(master, x);
    t := ONE;
    b[k - 1] := ONE;
    LeadingQuotient(master, x);
    EvalLast(q, x);
    for i := k - 1 downto 0
      invariant forall j :: i <= j < k ==> b[j] == q[j]
      invariant t == Eval(q[i..], x)
    {
      QuotStep(master, x, i);
      EvalStep(q, x, i);
      assert c[i + 1] == master[i + 1];
      b[i] := Plus(c[i + 1], gf.Times(x, b[i + 1]));
      t := Plus(gf.Times(x, t), b[i]);
    }
    assert q[0..] == q;
  }

  lemma QuotStep(c: Vec, x: Gf, i: nat)
    requires i + 2 < |c|
    ensures Quot(c, x)[i] == Add(c[i + 1], Mul(x, Quot(c, x)[i + 1]))
  {
    QuotAt(c, x, i);
    QuotAt(c, x, i + 1);
    assert c[i + 1..][1..] == c[i + 2..];
  }

  lemma EvalStep(c: Vec, x: Gf, i: nat)
    requires i < |c|
    ensures Eval(c[i..], x) == Add(Mul(x, Eval(c[i + 1..], x)), c[i])
  {
    assert c[i..][1..] == c[i + 1..];
    AddComm(c[i], Mul(x, Eval(c[i + 1..], x)));
  }

  lemma EvalLast(c: Vec, x: Gf)
    requires |c| > 0 && c[|c| - 1] == ONE
    ensures Eval(c[|c| - 1..], x) == ONE
  {
    assert c[|c| - 1..][1..] == [];
    MulZero(x);
    AddZero(ONE);
  }

  /** Writes b / t into column row of the matrix. */
  method StoreColumn(gf: Tables, a: array<Gf>, k: nat, row: nat, b: array<Gf>, t: Gf)
    requires gf.Ready() && Start(k, k) <= a.Length && b.Length == k && row < k && a != b
    modifies a
    ensures forall i, j :: 0 <= i < k && 0 <= j < k ==>
      Block(a[..], 0, k, k)[i][j] == if j == row then Mul(Inv(t), b[i]) else old(Block(a[..], 0, k, k))[i][j]
    ensures forall p :: Start(k, k) <= p < a.Length ==> a[p] == old(a[p])
  {
    hide Tables.Ready, Tables.Times, Tables.Inverse, Start, Block;
    ghost var m := Block(a[..], 0, k, k);
    for col := 0 to k
      invariant forall i, j :: 0 <= i < k && 0 <= j < k ==>
        Block(a[..], 0, k, k)[i][j] == if j == row && i < col then Mul(Inv(t), b[i]) else m[i][j]
      invariant forall p :: Start(k, k) <= p < a.Length ==> a[p] == old(a[p])
    {
      StoreEntry(a, k, col, row, gf.Times(gf.Inverse(t), b[col]));
    }
  }

  method StoreEntry(a: array<Gf>, k: nat, row: nat, col: nat, v: Gf)
    requires Start(k, k) <= a.Length && row < k && col < k
    modifies a
    ensures forall i, j :: 0 <= i < k && 0 <= j < k ==>
      Block(a[..], 0, k, k)[i][j] == if i == row && j == col then v else old(Block(a[..], 0, k, k))[i][j]
    ensures forall p :: Start(k, k) <= p < a.Length ==> a[p] == old(a[p])
  {
    hide Start, Block;
    ghost var before := a[..];
    StartIs(row, k);
    BlockRow(a[..], 0, k, k, row);
    a[row * k + col] := v;
    forall i | 0 <= i < k
      ensures forall j :: 0 <= j < k ==>
        Block(a[..], 0, k, k)[i][j] == if i == row && j == col then v else Block(before, 0, k, k)[i][j]
    {
      BlockRow(before, 0, k, k, i);
      BlockRow(a[..], 0, k, k, i);
      if i != row {
        RowsApart(i, row, k);
      }
    }
  }

  /** matrix_inv_vandermonde. For k = 1 it gives up, leaving the one element unchanged. */
  method MatrixInvVandermonde(gf: Tables, a: array<Gf>, k: nat) returns (ok: bool)
    requires gf.Ready() && k > 0 && Start(k, k) <= a.Length
    modifies a
    ensures ok == (k > 1)
    ensures !ok ==> a[..] == old(a[..])
    ensures ok ==> Block(a[..], 0, k, k) == VandermondeInverse(Points(old(Block(a[..], 0, k, k)), k))
    ensures forall p :: Start(k, k) <= p < a.Length ==> a[p] == old(a[p])
  {
    hide Tables.Ready, Start, Block, VandermondeInverse, Master, Quot, Eval, Points;
    if k == 1 {
      return false;
    }
    ghost var ps := Points(Block(a[..], 0, k, k), k);
    var p := ReadPoints(a, k);
    var c := MasterCoefficients(gf, p, k);
    var b := new Gf[k](_ => ZERO);
    for row := 0 to k
      invariant p[..] == ps && c[..] == Master(ps)[..k]
      invariant forall i, j :: 0 <= i < k && 0 <= j < row ==>
        Block(a[..], 0, k, k)[i][j] == Mul(Inv(Eval(Numerator(ps, j), ps[j])), Numerator(ps, j)[i])
      invariant forall p :: Start(k, k) <= p < a.Length ==> a[p] == old(a[p])
    {
      var t := SyntheticDivision(gf, c, b, k, p[row], Master(ps));
      StoreColumn(gf, a, k, row, b, t);
    }
    IsVandermondeInverse(ps, Block(a[..], 0, k, k));
    return true;
  }

  method ReadPoints(a: array<Gf>, k: nat) returns (p: array<Gf>)
    requires k > 1 && Start(k, k) <= a.Length
    ensures fresh(p) && p[..] == Points(Block(a[..], 0, k, k), k)
  {
    hide Start, Block;
    p := new Gf[k](_ => ZERO);
    var j := 1;
    ghost var ps := Points(Block(a[..], 0, k, k), k);
    StartNext(0, k);
    for i := 0 to k
      invariant j == Start(i, k) + 1
      invariant p[..i] == ps[..i]
    {
      StartNext(i, k);
      BlockRow(a[..], 0, k, k, i);
      p[i] := a[j];
      j := j + k;
    }
  }

  lemma IsVandermondeInverse(ps: seq<Gf>, m: Matrix)
    requires IsMatrix(m, |ps|, |ps|)
    requires forall i, j :: 0 <= i < |ps| && 0 <= j < |ps| ==>
      m[i][j] == Mul(Inv(Eval(Numerator(ps, j), ps[j])), Numerator(ps, j)[i])
    ensures m == VandermondeInverse(ps)
  {
    forall i | 0 <= i < |ps| ensures m[i] == VandermondeInverse(ps)[i] {
    }
  }

  /** A Vandermonde matrix on distinct points is replaced by its inverse. */
  lemma InvertsItsInput(m: Matrix, k: nat, ps: seq<Gf>)
    requires k > 1 && |ps| == k && m == Vandermonde(ps, k) && Distinct(ps)
    ensures Points(m, k) == ps
    ensures IsInverseMatrix(m, VandermondeInverse(Points(m, k)), k)
  {
    forall i | 0 <= i < k ensures m[i][1] == ps[i] {
      assert Pow(ps[i], 1) == Mul(ps[i], Pow(ps[i], 0));
      MulOne(ps[i]);
    }
    assert Points(m, k) == ps;
    VandermondeInverts(ps);
    InvertsIsInverse(m, VandermondeInverse(ps), k);
  }
}
