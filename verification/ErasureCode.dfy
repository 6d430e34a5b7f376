/** The generator matrix of the erasure code, and why any k of its rows determine the source. */
module ErasureCode {
  import opened Pigeonhole
  import opened Gf256
  import opened LinearAlgebra
  import opened Polynomials

  /** The evaluation point of packet i: zero, then the powers of x. */
  ghost function Point(i: nat): Gf {
    if i == 0 then ZERO else Exp(i - 1)
  }

  ghost function PointsOf(idxs: seq<nat>): (ps: seq<Gf>)
    ensures |ps| == |idxs| && forall j :: 0 <= j < |idxs| ==> ps[j] == Point(idxs[j])
  {
    seq(|idxs|, j requires 0 <= j < |idxs| => Point(idxs[j]))
  }

  ghost function FirstPoints(k: nat): (ps: seq<Gf>)
    ensures |ps| == k && forall i :: 0 <= i < k ==> ps[i] == Point(i)
  {
    seq(k, i requires 0 <= i < k => Point(i))
  }

  /** Row i of the generator: its Vandermonde row times the inverse of the first k Vandermonde rows. */
  ghost function GeneratorRow(k: nat, i: nat): (g: Vec)
    ensures |g| == k
  {
    RowTimes(Powers(Point(i), k), VandermondeInverse(FirstPoints(k)), k)
  }

  ghost function Generator(k: nat, n: nat): (m: Matrix)
    ensures IsMatrix(m, n, k) && forall i :: 0 <= i < n ==> m[i] == GeneratorRow(k, i)
  {
    seq(n, i requires 0 <= i < n => GeneratorRow(k, i))
  }

  /** The rows of the generator for the given packets. */
  ghost function Selected(k: nat, idxs: seq<nat>): (m: Matrix)
    ensures IsMatrix(m, |idxs|, k) && forall j :: 0 <= j < |idxs| ==> m[j] == GeneratorRow(k, idxs[j])
  {
    seq(|idxs|, j requires 0 <= j < |idxs| => GeneratorRow(k, idxs[j]))
  }

  /** Packet i of the code: row i of the generator times the k source packets. */
  ghost function Codeword(k: nat, source: Matrix, len: nat, i: nat): (c: Vec)
    requires IsMatrix(source, k, len)
    ensures |c| == len
  {
    RowTimes(GeneratorRow(k, i), source, len)
  }

  lemma PointInjective(i: nat, j: nat)
    requires i < j < 256
    ensures Point(i) != Point(j)
  {
    hide Exp;
    if i == 0 {
      ExpNonZero(j - 1);
    } else {
      ExpInjective(i - 1, j - 1);
    }
  }

  lemma PointsDistinct(idxs: seq<nat>)
    requires Distinct(idxs) && forall j :: 0 <= j < |idxs| ==> idxs[j] < 256
    ensures Distinct(PointsOf(idxs))
  {
    hide Point;
    var ps := PointsOf(idxs);
    forall i, j | 0 <= i < j < |ps| ensures ps[i] != ps[j] {
      if idxs[i] < idxs[j] {
        PointInjective(idxs[i], idxs[j]);
      } else {
        PointInjective(idxs[j], idxs[i]);
      }
    }
  }

  lemma FirstPointsDistinct(k: nat)
    requires k <= 256
    ensures Distinct(FirstPoints(k))
  {
    hide Point;
    var idxs: seq<nat> := seq(k, i => i);
    assert FirstPoints(k) == PointsOf(idxs);
    PointsDistinct(idxs);
  }

  /** The code is systematic: the first k packets are the source packets. */
  lemma TopIsIdentity(k: nat, i: nat)
    requires i < k <= 256
    ensures GeneratorRow(k, i) == Unit(k, i)
  {
    hide Point, VandermondeInverse, Powers;
    var ps := FirstPoints(k);
    FirstPointsDistinct(k);
    VandermondeRightInverse(ps);
    var m := MatMul(Vandermonde(ps, k), VandermondeInverse(ps), k, k, k);
    assert m[i] == GeneratorRow(k, i);
  }

  lemma GeneratorRowApply(k: nat, i: nat, x: Vec)
    requires |x| == k
    ensures Dot(GeneratorRow(k, i), x) == Dot(Powers(Point(i), k), Apply(VandermondeInverse(FirstPoints(k)), x))
  {
    RowTimesApply(Powers(Point(i), k), VandermondeInverse(FirstPoints(k)), x);
  }

  /** The inverse of the rows selected: first Vandermonde rows times the inverse of the selected ones. */
  ghost function SelectionInverse(k: nat, idxs: seq<nat>): (m: Matrix)
    requires |idxs| == k
    ensures IsMatrix(m, k, k)
  {
    MatMul(Vandermonde(FirstPoints(k), k), VandermondeInverse(PointsOf(idxs)), k, k, k)
  }

  /** MDS property: any k distinct rows of the generator form an invertible matrix. */
  lemma SelectionInvertible(k: nat, idxs: seq<nat>)
    requires k <= 256 && |idxs| == k
    requires Distinct(idxs) && forall j :: 0 <= j < k ==> idxs[j] < 256
    ensures IsInverseMatrix(Selected(k, idxs), SelectionInverse(k, idxs), k)
  {
    hide Point, VandermondeInverse, GeneratorRow;
    var ps, qs, s, t := FirstPoints(k), PointsOf(idxs), Selected(k, idxs), SelectionInverse(k, idxs);
    FirstPointsDistinct(k);
    PointsDistinct(idxs);
    VandermondeInverts(ps);
    VandermondeInverts(qs);
    forall x: Vec, y: Vec | |x| == |y| == k ensures Solves(s, x, y) <==> Solves(t, y, x) {
      var u, v := Apply(VandermondeInverse(ps), x), Apply(VandermondeInverse(qs), y);
      assert Solves(VandermondeInverse(ps), x, u) && Solves(Vandermonde(ps, k), u, x);
      assert Solves(VandermondeInverse(qs), y, v) && Solves(Vandermonde(qs, k), v, y);
      assert Apply(s, x) == Apply(Vandermonde(qs, k), u) by { SelectedApply(k, idxs, x); }
      MatMulApply(Vandermonde(ps, k), VandermondeInverse(qs), y, k);
      if Solves(s, x, y) {
        VandermondeInjective(qs, u, v);
      }
      if Solves(t, y, x) {
        VandermondeInjective(ps, u, v);
      }
    }
    InvertsIsInverse(s, t, k);
  }

  /** The selected rows act as Vandermonde rows on the coefficients of x. */
  lemma SelectedApply(k: nat, idxs: seq<nat>, x: Vec)
    requires |idxs| == |x| == k
    ensures Apply(Selected(k, idxs), x) ==
      Apply(Vandermonde(PointsOf(idxs), k), Apply(VandermondeInverse(FirstPoints(k)), x))
  {
    hide Point, VandermondeInverse, GeneratorRow;
    var s, v := Selected(k, idxs), Vandermonde(PointsOf(idxs), k);
    forall j | 0 <= j < k ensures Apply(s, x)[j] == Apply(v, Apply(VandermondeInverse(FirstPoints(k)), x))[j] {
      GeneratorRowApply(k, idxs[j], x);
    }
  }

  lemma SelectionInjective(k: nat, idxs: seq<nat>, x: Vec, y: Vec)
    requires k <= 256 && |idxs| == |x| == |y| == k
    requires Distinct(idxs) && forall j :: 0 <= j < k ==> idxs[j] < 256
    requires Apply(Selected(k, idxs), x) == Apply(Selected(k, idxs), y)
    ensures x == y
  {
    hide GeneratorRow, Apply;
    var s, t := Selected(k, idxs), SelectionInverse(k, idxs);
    SelectionInvertible(k, idxs);
    InvertsIsInverse(s, t, k);
    assert Solves(s, x, Apply(s, x)) && Solves(s, y, Apply(s, y));
  }

  /** The rows of an invertible matrix are distinct. */
  lemma InvertibleRowsDistinct(a: Matrix, b: Matrix, k: nat, i: nat, j: nat)
    requires Inverts(a, b, k) && i < k && j < k && a[i] == a[j]
    ensures i == j
  {
    var y := Unit(k, i);
    var x := Apply(b, y);
    assert Solves(b, y, x);
    assert Solves(a, x, y);
    assert y[i] == Dot(a[i], x) == Dot(a[j], x) == y[j];
  }

  /** Any k of n packets determine the source. */
  lemma AnyKDetermineSource(k: nat, idxs: seq<nat>, source: Matrix, other: Matrix, len: nat)
    requires k <= 256 && |idxs| == k
    requires Distinct(idxs) && forall j :: 0 <= j < k ==> idxs[j] < 256
    requires IsMatrix(source, k, len) && IsMatrix(other, k, len)
    requires forall j :: 0 <= j < k ==> Codeword(k, source, len, idxs[j]) == Codeword(k, other, len, idxs[j])
    ensures source == other
  {
    hide GeneratorRow;
    var s := Selected(k, idxs);
    forall p | 0 <= p < len ensures Column(source, p) == Column(other, p) {
      forall j | 0 <= j < k ensures Apply(s, Column(source, p))[j] == Apply(s, Column(other, p))[j] {
        assert Codeword(k, source, len, idxs[j])[p] == Codeword(k, other, len, idxs[j])[p];
      }
      SelectionInjective(k, idxs, Column(source, p), Column(other, p));
    }
    forall i | 0 <= i < k ensures source[i] == other[i] {
      forall p | 0 <= p < len ensures source[i][p] == other[i][p] {
        assert Column(source, p)[i] == Column(other, p)[i];
      }
    }
  }

  /** The first k packets of the code are the source itself. */
  lemma SystematicCodeword(k: nat, source: Matrix, len: nat, i: nat)
    requires i < k <= 256 && IsMatrix(source, k, len)
    ensures Codeword(k, source, len, i) == source[i]
  {
    hide GeneratorRow;
    TopIsIdentity(k, i);
    forall p | 0 <= p < len ensures Codeword(k, source, len, i)[p] == source[i][p] {
      DotUnit(Column(source, p), i);
    }
  }

  /** Powers of a power of x, as the table of powers gives them. */
  lemma {:induction false} PowOfExp(r: nat, c: nat)
    ensures Pow(Exp(r), c) == Exp((r * c) % 255)
  {
    hide Exp;
    PowIsExp(r, c);
    ExpReduce(r * c);
  }

  lemma {:induction false} PowIsExp(r: nat, c: nat)
    ensures Pow(Exp(r), c) == Exp(r * c)
  {
    if c > 0 {
      PowIsExp(r, c - 1);
      ExpAdd(r, r * (c - 1));
      assert r + r * (c - 1) == r * c;
    }
  }

  lemma PowOfZero(c: nat)
    ensures Pow(ZERO, c) == if c == 0 then ONE else ZERO
  {
    if c > 0 {
      MulZero(Pow(ZERO, c - 1));
    }
  }
}
