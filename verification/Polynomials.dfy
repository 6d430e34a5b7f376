/** Polynomials over the field, as sequences of coefficients from the constant term up, and the
    inverse of a Vandermonde matrix. */
module Polynomials {
  import opened Pigeonhole
  import opened Gf256
  import opened LinearAlgebra

  ghost function Eval(c: Vec, x: Gf): Gf {
    if c == [] then ZERO else Add(c[0], Mul(x, Eval(c[1..], x)))
  }

  ghost function Pow(x: Gf, n: nat): Gf {
    if n == 0 then ONE else Mul(x, Pow(x, n - 1))
  }

  ghost function Powers(x: Gf, k: nat): (r: Vec)
    ensures |r| == k && forall i :: 0 <= i < k ==> r[i] == Pow(x, i)
  {
    seq(k, i requires 0 <= i < k => Pow(x, i))
  }

  lemma {:induction false} EvalIsDot(c: Vec, x: Gf)
    ensures Dot(Powers(x, |c|), c) == Eval(c, x)
  {
    if c != [] {
      var rest := Powers(x, |c| - 1);
      assert Powers(x, |c|)[1..] == Scale(x, rest);
      DotScale(x, rest, c[1..]);
      EvalIsDot(c[1..], x);
      MulOne(c[0]);
    }
  }

  lemma {:induction false} EvalSum(c: Vec, d: Vec, x: Gf)
    requires |c| == |d|
    ensures Eval(Sum(c, d), x) == Add(Eval(c, x), Eval(d, x))
  {
    if c == [] {
      AddZero(ZERO);
    } else {
      assert Sum(c, d)[1..] == Sum(c[1..], d[1..]);
      EvalSum(c[1..], d[1..], x);
      MulAdd(Eval(c[1..], x), Eval(d[1..], x), x);
      AddSwap(c[0], d[0], Mul(x, Eval(c[1..], x)), Mul(x, Eval(d[1..], x)));
    }
  }

  lemma {:induction false} EvalScale(a: Gf, c: Vec, x: Gf)
    ensures Eval(Scale(a, c), x) == Mul(a, Eval(c, x))
  {
    if c == [] {
      MulZero(a);
    } else {
      var e := Eval(c[1..], x);
      assert Scale(a, c)[1..] == Scale(a, c[1..]);
      EvalScale(a, c[1..], x);
      MulLeftComm(x, a, e);
      MulAdd(c[0], Mul(x, e), a);
    }
  }

  lemma MulLeftComm(a: Gf, b: Gf, c: Gf)
    ensures Mul(a, Mul(b, c)) == Mul(b, Mul(a, c))
  {
    MulAssoc(a, b, c);
    MulComm(a, b);
    MulAssoc(b, a, c);
  }

  lemma {:induction false} EvalPadded(c: Vec, x: Gf)
    ensures Eval(c + [ZERO], x) == Eval(c, x)
  {
    if c == [] {
      MulZero(x);
      AddZero(ZERO);
    } else {
      assert (c + [ZERO])[1..] == c[1..] + [ZERO];
      EvalPadded(c[1..], x);
    }
  }

  lemma {:induction false} EvalZeros(k: nat, x: Gf)
    ensures Eval(Zeros(k), x) == ZERO
  {
    if k > 0 {
      assert Zeros(k)[1..] == Zeros(k - 1);
      EvalZeros(k - 1, x);
      MulZero(x);
      AddZero(ZERO);
    }
  }

  // ---------- division by x + p ----------

  /** The quotient of c by x + p; the remainder is c(p). */
  ghost function Quot(c: Vec, p: Gf): (q: Vec)
    ensures |q| == if c == [] then 0 else |c| - 1
  {
    if |c| <= 1 then [] else [Eval(c[1..], p)] + Quot(c[1..], p)
  }

  /** Synthetic division: each coefficient of the quotient is the value of a tail. */
  lemma {:induction false} QuotAt(c: Vec, p: Gf, i: nat)
    requires i + 1 < |c|
    ensures Quot(c, p)[i] == Eval(c[i + 1..], p)
  {
    if i > 0 {
      QuotAt(c[1..], p, i - 1);
      assert c[1..][i..] == c[i + 1..];
    }
  }

  /** c(y) = (y + p) q(y) + c(p). */
  lemma {:induction false} Division(c: Vec, p: Gf, y: Gf)
    ensures Eval(c, y) == Add(Mul(Add(y, p), Eval(Quot(c, p), y)), Eval(c, p))
  {
    MulZero(Add(y, p));
    if c == [] {
      AddZero(ZERO);
    } else if |c| == 1 {
      assert c[1..] == [];
      MulZero(y);
      MulZero(p);
      AddZero(Add(c[0], ZERO));
    } else {
      var q, r := Quot(c[1..], p), Eval(c[1..], p);
      assert Quot(c, p)[1..] == q;
      Division(c[1..], p, y);
      DivisionStep(c[0], y, p, Eval(q, y), r);
    }
  }

  /** c + y ((y + p) q + r) = (y + p) (r + y q) + (c + p r). */
  lemma DivisionStep(c: Gf, y: Gf, p: Gf, q: Gf, r: Gf)
    ensures Add(c, Mul(y, Add(Mul(Add(y, p), q), r))) == Add(Mul(Add(y, p), Add(r, Mul(y, q))), Add(c, Mul(p, r)))
  {
    var s := Add(y, p);
    var sq, yr, pr := Mul(s, Mul(y, q)), Mul(y, r), Mul(p, r);
    MulAdd(Mul(s, q), r, y);
    MulLeftComm(y, s, q);
    assert Mul(y, Add(Mul(s, q), r)) == Add(sq, yr);
    MulAdd(r, Mul(y, q), s);
    MulAdd(y, p, r);
    assert Mul(s, Add(r, Mul(y, q))) == Add(Add(yr, pr), sq);
    SumsCancel(c, sq, yr, pr);
  }

  lemma SumsCancel(c: Gf, a: Gf, b: Gf, d: Gf)
    ensures Add(c, Add(a, b)) == Add(Add(Add(b, d), a), Add(c, d))
  {
    AddComm(c, d);
    AddSwap(Add(b, d), a, d, c);
    AddAssoc(b, d, d);
    AddSelf(d);
    AddZero(b);
    AddComm(a, c);
    AddAssoc(b, c, a);
    AddComm(b, Add(c, a));
    AddAssoc(c, a, b);
    assert Add(Add(Add(b, d), a), Add(d, c)) == Add(b, Add(a, c));
  }

  lemma {:induction false} ZeroQuotient(c: Vec, p: Gf)
    requires Quot(c, p) == Zeros(|Quot(c, p)|) && Eval(c, p) == ZERO
    ensures c == Zeros(|c|)
  {
    if c != [] {
      assert Eval(c[1..], p) == ZERO by {
        if |c| > 1 {
          assert Quot(c, p)[0] == ZERO;
        }
      }
      assert Quot(c[1..], p) == Zeros(|Quot(c[1..], p)|) by {
        if |c| > 1 {
          assert Quot(c[1..], p) == Quot(c, p)[1..];
        }
      }
      ZeroQuotient(c[1..], p);
      MulZero(p);
      AddZero(c[0]);
      assert c == [c[0]] + c[1..];
    }
  }

  lemma SumZeroIffEqual(a: Gf, b: Gf)
    ensures Add(a, b) == ZERO <==> a == b
  {
    AddSelf(b);
    if Add(a, b) == ZERO {
      AddAssoc(a, b, b);
      AddZero(a);
      AddZero(b);
    }
  }

  /** Away from p, a root of c is a root of the quotient if p is a root too. */
  lemma RootOfQuotient(c: Vec, p: Gf, y: Gf)
    requires Eval(c, p) == ZERO && Eval(c, y) == ZERO && y != p
    ensures Eval(Quot(c, p), y) == ZERO
  {
    Division(c, p, y);
    var m := Mul(Add(y, p), Eval(Quot(c, p), y));
    AddZero(m);
    NoZeroDivisors(Add(y, p), Eval(Quot(c, p), y));
    SumZeroIffEqual(y, p);
  }

  /** A polynomial with as many distinct roots as coefficients is zero. */
  lemma {:induction false} TooManyRoots(c: Vec, xs: seq<Gf>)
    requires |xs| == |c| && Distinct(xs)
    requires forall i :: 0 <= i < |xs| ==> Eval(c, xs[i]) == ZERO
    ensures c == Zeros(|c|)
    decreases |c|
  {
    if c != [] {
      var n := |c| - 1;
      var p := xs[n];
      forall i | 0 <= i < n ensures Eval(Quot(c, p), xs[..n][i]) == ZERO {
        RootOfQuotient(c, p, xs[i]);
      }
      TooManyRoots(Quot(c, p), xs[..n]);
      ZeroQuotient(c, p);
    }
  }

  // ---------- the polynomial with given roots ----------

  /** (x + p) c. */
  ghost function MulLinear(c: Vec, p: Gf): (r: Vec)
    ensures |r| == |c| + 1
  {
    Sum([ZERO] + c, Scale(p, c) + [ZERO])
  }

  lemma EvalMulLinear(c: Vec, p: Gf, x: Gf)
    ensures Eval(MulLinear(c, p), x) == Mul(Add(x, p), Eval(c, x))
  {
    EvalSum([ZERO] + c, Scale(p, c) + [ZERO], x);
    assert ([ZERO] + c)[1..] == c;
    AddZero(Mul(x, Eval(c, x)));
    EvalPadded(Scale(p, c), x);
    EvalScale(p, c, x);
    MulAdd(x, p, Eval(c, x));
  }

  /** The product of x + p over all p in ps. */
  ghost function Master(ps: seq<Gf>): (c: Vec)
    ensures |c| == |ps| + 1 && c[|ps|] == ONE
  {
    if ps == [] then [ONE]
    else
      var n := |ps| - 1;
      var m := Master(ps[..n]);
      AddZero(m[n]);
      MulLinear(m, ps[n])
  }

  lemma {:induction false} MasterRoots(ps: seq<Gf>, i: nat)
    requires i < |ps|
    ensures Eval(Master(ps), ps[i]) == ZERO
  {
    var n := |ps| - 1;
    var m := Master(ps[..n]);
    EvalMulLinear(m, ps[n], ps[i]);
    if i == n {
      AddSelf(ps[n]);
      MulZero(Eval(m, ps[i]));
    } else {
      MasterRoots(ps[..n], i);
      MulZero(Add(ps[i], ps[n]));
    }
  }

  // ---------- Vandermonde matrices ----------

  ghost function Vandermonde(ps: seq<Gf>, k: nat): (v: Matrix)
    ensures IsMatrix(v, |ps|, k) && forall i :: 0 <= i < |ps| ==> v[i] == Powers(ps[i], k)
  {
    seq(|ps|, i requires 0 <= i < |ps| => Powers(ps[i], k))
  }

  /** A Vandermonde matrix with as many distinct points as columns sends only zero to zero. */
  lemma VandermondeKernel(ps: seq<Gf>, c: Vec)
    requires Distinct(ps) && |ps| == |c|
    requires Apply(Vandermonde(ps, |c|), c) == Zeros(|c|)
    ensures c == Zeros(|c|)
  {
    forall i | 0 <= i < |ps| ensures Eval(c, ps[i]) == ZERO {
      EvalIsDot(c, ps[i]);
      assert Apply(Vandermonde(ps, |c|), c)[i] == ZERO;
    }
    TooManyRoots(c, ps);
  }

  /** The numerator of the r-th Lagrange polynomial: the product of x + p over the other points. */
  ghost function Numerator(ps: seq<Gf>, r: nat): (b: Vec)
    requires r < |ps|
    ensures |b| == |ps|
  {
    Quot(Master(ps), ps[r])
  }

  /** Column r holds the coefficients of the polynomial that is 1 at point r and 0 at the others. */
  ghost function VandermondeInverse(ps: seq<Gf>): (w: Matrix)
    ensures IsMatrix(w, |ps|, |ps|)
  {
    seq(|ps|, c requires 0 <= c < |ps| =>
      seq(|ps|, r requires 0 <= r < |ps| => Mul(Inv(Eval(Numerator(ps, r), ps[r])), Numerator(ps, r)[c])))
  }

  lemma NumeratorElsewhere(ps: seq<Gf>, r: nat, i: nat)
    requires Distinct(ps) && r < |ps| && i < |ps| && i != r
    ensures Eval(Numerator(ps, r), ps[i]) == ZERO
  {
    MasterRoots(ps, r);
    MasterRoots(ps, i);
    assert ps[i] != ps[r];
    RootOfQuotient(Master(ps), ps[r], ps[i]);
  }

  lemma {:induction false} LeadingQuotient(c: Vec, p: Gf)
    requires |c| >= 2 && c[|c| - 1] == ONE
    ensures Quot(c, p)[|c| - 2] == ONE
  {
    QuotAt(c, p, |c| - 2);
    var last := c[|c| - 1..];
    assert last == [ONE] && last[1..] == [];
    MulZero(p);
    AddZero(ONE);
  }

  /** The value divided by is never zero. */
  lemma NumeratorHere(ps: seq<Gf>, r: nat)
    requires Distinct(ps) && r < |ps|
    ensures Eval(Numerator(ps, r), ps[r]) != ZERO
  {
    var b := Numerator(ps, r);
    LeadingQuotient(Master(ps), ps[r]);
    if Eval(b, ps[r]) == ZERO {
      forall i | 0 <= i < |ps| ensures Eval(b, ps[i]) == ZERO {
        if i != r {
          NumeratorElsewhere(ps, r, i);
        }
      }
      TooManyRoots(b, ps);
      assert false;
    }
  }

  lemma LagrangeEntry(ps: seq<Gf>, i: nat, r: nat)
    requires Distinct(ps) && i < |ps| && r < |ps|
    ensures Dot(Powers(ps[i], |ps|), Column(VandermondeInverse(ps), r)) == if i == r then ONE else ZERO
  {
    var k, b := |ps|, Numerator(ps, r);
    var t := Eval(b, ps[r]);
    assert Column(VandermondeInverse(ps), r) == Scale(Inv(t), b);
    DotComm(Powers(ps[i], k), Scale(Inv(t), b));
    DotScale(Inv(t), b, Powers(ps[i], k));
    DotComm(b, Powers(ps[i], k));
    EvalIsDot(b, ps[i]);
    if i == r {
      NumeratorHere(ps, r);
      InvNonZero(t);
    } else {
      NumeratorElsewhere(ps, r, i);
      MulZero(Inv(t));
    }
  }

  lemma VandermondeRightInverse(ps: seq<Gf>)
    requires Distinct(ps)
    ensures MatMul(Vandermonde(ps, |ps|), VandermondeInverse(ps), |ps|, |ps|, |ps|) == Identity(|ps|)
  {
    var k := |ps|;
    var m := MatMul(Vandermonde(ps, k), VandermondeInverse(ps), k, k, k);
    forall i | 0 <= i < k ensures m[i] == Unit(k, i) {
      forall r | 0 <= r < k ensures m[i][r] == Unit(k, i)[r] {
        LagrangeEntry(ps, i, r);
      }
    }
  }

  lemma ApplySum(a: Matrix, x: Vec, y: Vec)
    requires |x| == |y| && IsMatrix(a, |a|, |x|)
    ensures Apply(a, Sum(x, y)) == Sum(Apply(a, x), Apply(a, y))
  {
    forall i | 0 <= i < |a| ensures Apply(a, Sum(x, y))[i] == Add(Dot(a[i], x), Dot(a[i], y)) {
      DotComm(a[i], Sum(x, y));
      DotSum(x, y, a[i]);
      DotComm(a[i], x);
      DotComm(a[i], y);
    }
  }

  /** Equal images under a Vandermonde matrix come from equal vectors. */
  lemma VandermondeInjective(ps: seq<Gf>, x: Vec, y: Vec)
    requires Distinct(ps) && |ps| == |x| == |y|
    requires Apply(Vandermonde(ps, |ps|), x) == Apply(Vandermonde(ps, |ps|), y)
    ensures x == y
  {
    var v := Vandermonde(ps, |ps|);
    ApplySum(v, x, y);
    forall i | 0 <= i < |ps| ensures Apply(v, Sum(x, y))[i] == ZERO {
      AddSelf(Apply(v, x)[i]);
    }
    assert Apply(v, Sum(x, y)) == Zeros(|ps|);
    VandermondeKernel(ps, Sum(x, y));
    forall i | 0 <= i < |ps| ensures x[i] == y[i] {
      assert Sum(x, y)[i] == ZERO;
      SumZeroIffEqual(x[i], y[i]);
    }
  }

  /** For distinct points, the Lagrange coefficients invert the Vandermonde matrix on both sides. */
  lemma VandermondeInverts(ps: seq<Gf>)
    requires Distinct(ps)
    ensures Inverts(Vandermonde(ps, |ps|), VandermondeInverse(ps), |ps|)
  {
    var k, v, w := |ps|, Vandermonde(ps, |ps|), VandermondeInverse(ps);
    VandermondeRightInverse(ps);
    forall x: Vec, y: Vec | |x| == |y| == k ensures Solves(v, x, y) <==> Solves(w, y, x) {
      MatMulApply(v, w, y, k);
      ApplyIdentity(y);
      assert Apply(v, Apply(w, y)) == y;
      if Solves(v, x, y) {
        VandermondeInjective(ps, x, Apply(w, y));
      }
    }
  }
}
