/** The field is the polynomials over GF(2) modulo x^8 + x^4 + x^3 + x^2 + 1: every polynomial has a
    value in the field, products go to products, and the modulus goes to zero. */
module PolynomialProduct {
  import opened Gf256

  /** Coefficients, from the constant term up. */
  type Poly = seq<bool>

  ghost function ValueOf(u: Poly): Gf {
    if u == [] then ZERO
    else Add(ValueOf(u[..|u| - 1]), Select(u[|u| - 1], Exp(|u| - 1)))
  }

  function Nil(n: nat): (u: Poly)
    ensures |u| == n && forall i :: 0 <= i < n ==> !u[i]
  {
    seq(n, _ => false)
  }

  function PolyPlus(u: Poly, v: Poly): (r: Poly)
    requires |u| == |v|
    ensures |r| == |u| && forall i :: 0 <= i < |u| ==> r[i] == (u[i] != v[i])
  {
    seq(|u|, i requires 0 <= i < |u| => u[i] != v[i])
  }

  /** The product of two polynomials, one term of the first at a time. */
  function PolyTimes(u: Poly, v: Poly): (r: Poly)
    ensures |r| == |u| + |v|
  {
    if u == [] then Nil(|v|)
    else
      var n := |u| - 1;
      PolyPlus(PolyTimes(u[..n], v) + [false], TermTimes(u[n], n, v))
  }

  /** The polynomial that a byte stands for. */
  function Bits(a: Gf): (u: Poly)
    ensures |u| == 8
  {
    seq(8, i requires 0 <= i < 8 => Has(a.bits, Power(i)))
  }

  /** x^8 + x^4 + x^3 + x^2 + 1. */
  const MODULUS: Poly := [true, false, true, true, true, false, false, false, true]

  lemma {:induction false} ValuePlus(u: Poly, v: Poly)
    requires |u| == |v|
    ensures ValueOf(PolyPlus(u, v)) == Add(ValueOf(u), ValueOf(v))
  {
    hide Exp;
    AddZero(ZERO);
    if u != [] {
      var n := |u| - 1;
      assert PolyPlus(u, v)[..n] == PolyPlus(u[..n], v[..n]);
      ValuePlus(u[..n], v[..n]);
      AddZero(Exp(n));
      AddSelf(Exp(n));
      AddSwap(ValueOf(u[..n]), ValueOf(v[..n]), Select(u[n], Exp(n)), Select(v[n], Exp(n)));
    }
  }

  lemma {:induction false} ValueNil(n: nat)
    ensures ValueOf(Nil(n)) == ZERO
  {
    hide Exp;
    if n > 0 {
      assert Nil(n)[..n - 1] == Nil(n - 1);
      ValueNil(n - 1);
      AddZero(ZERO);
    }
  }

  lemma ValuePadded(u: Poly)
    ensures ValueOf(u + [false]) == ValueOf(u)
  {
    hide Exp;
    assert (u + [false])[..|u|] == u;
    AddZero(ValueOf(u));
  }

  /** Multiplying by x^n. */
  lemma {:induction false} ValueShifted(u: Poly, n: nat)
    ensures ValueOf(Nil(n) + u) == Mul(Exp(n), ValueOf(u))
  {
    hide Exp;
    if u == [] {
      assert Nil(n) + u == Nil(n);
      ValueNil(n);
      MulZero(Exp(n));
    } else {
      var m := |u| - 1;
      assert (Nil(n) + u)[..n + m] == Nil(n) + u[..m];
      ValueShifted(u[..m], n);
      ExpAdd(n, m);
      MulZero(Exp(n));
      MulAdd(ValueOf(u[..m]), Select(u[m], Exp(m)), Exp(n));
    }
  }

  /** The summand of the product for the n-th coefficient c. */
  function TermTimes(c: bool, n: nat, v: Poly): (r: Poly)
    ensures |r| == n + |v| + 1
  {
    if c then Nil(n) + v + [false] else Nil(n + |v| + 1)
  }

  lemma ValueTermTimes(c: bool, n: nat, v: Poly)
    ensures ValueOf(TermTimes(c, n, v)) == Mul(Select(c, Exp(n)), ValueOf(v))
  {
    hide Exp, ValueOf;
    MulZero(ValueOf(v));
    ValuePadded(Nil(n) + v);
    ValueShifted(v, n);
    ValueNil(n + |v| + 1);
  }

  /** Products of polynomials go to products in the field. */
  lemma {:induction false} ValueTimes(u: Poly, v: Poly)
    ensures ValueOf(PolyTimes(u, v)) == Mul(ValueOf(u), ValueOf(v))
  {
    hide Exp, TermTimes;
    if u == [] {
      MulZero(ValueOf(v));
      ValueNil(|v|);
    } else {
      var n := |u| - 1;
      ValueTimes(u[..n], v);
      ValueTermTimes(u[n], n, v);
      ValuePadded(PolyTimes(u[..n], v));
      ValuePlus(PolyTimes(u[..n], v) + [false], TermTimes(u[n], n, v));
      MulAdd(ValueOf(u[..n]), Select(u[n], Exp(n)), ValueOf(v));
    }
  }

  lemma {:induction false} ValuePrefix(a: Gf, n: nat)
    requires n <= 8
    ensures ValueOf(Bits(a)[..n]) == Partial(ONE, a, n)
  {
    hide Has, Power, Shift;
    if n > 0 {
      ValuePrefix(a, n - 1);
      assert Bits(a)[..n][..n - 1] == Bits(a)[..n - 1];
    }
  }

  /** A byte is the value of the polynomial it stands for. */
  lemma ValueOfBits(a: Gf)
    ensures ValueOf(Bits(a)) == a
  {
    hide Partial, ValueOf;
    ValuePrefix(a, 8);
    assert Bits(a)[..8] == Bits(a);
    PartialOne(a);
  }

  lemma SumOfTerms()
    ensures ValueOf(MODULUS[..8]) == Gf(0x1d)
  {
    hide Shift, Add;
    PowersOfX();
    AddIsXor(Gf(0x00), Gf(0x01));
    AddIsXor(Gf(0x01), Gf(0x04));
    AddIsXor(Gf(0x05), Gf(0x08));
    AddIsXor(Gf(0x0d), Gf(0x10));
    AddZero(Gf(0x01));
    AddZero(Gf(0x1d));
    var m := MODULUS;
    assert m[..1][..0] == [] && m[..2][..1] == m[..1] && m[..3][..2] == m[..2] && m[..4][..3] == m[..3];
    assert m[..5][..4] == m[..4] && m[..6][..5] == m[..5] && m[..7][..6] == m[..6] && m[..8][..7] == m[..7];
    assert ValueOf(m[..1]) == Gf(0x01);
    assert ValueOf(m[..2]) == Gf(0x01);
    assert ValueOf(m[..3]) == Gf(0x05);
    assert ValueOf(m[..4]) == Gf(0x0d);
    assert ValueOf(m[..5]) == Gf(0x1d);
    assert ValueOf(m[..6]) == Gf(0x1d);
    assert ValueOf(m[..7]) == Gf(0x1d);
  }

  /** The modulus goes to zero. */
  lemma ModulusVanishes()
    ensures ValueOf(MODULUS) == ZERO
  {
    hide Exp;
    SumOfTerms();
    EighthPower();
    AddSelf(Gf(0x1d));
    assert MODULUS[..8 + 1] == MODULUS;
  }

  /** The field product of two bytes is the value of the product of their polynomials. */
  lemma ProductOfBytes(a: Gf, b: Gf)
    ensures ValueOf(PolyTimes(Bits(a), Bits(b))) == Mul(a, b)
  {
    hide PolyTimes, ValueOf, Bits;
    ValueTimes(Bits(a), Bits(b));
    ValueOfBits(a);
    ValueOfBits(b);
  }

  // ---------- bytes are the remainders ----------

  lemma PowerBits(i: nat, j: nat)
    requires i < 8 && j < 8
    ensures Has(Power(j), Power(i)) <==> i == j
  {
  }

  lemma AddBits(a: Gf, b: Gf, i: nat)
    requires i < 8
    ensures Has(Add(a, b).bits, Power(i)) == (Has(a.bits, Power(i)) != Has(b.bits, Power(i)))
  {
    hide Has, Power;
  }

  lemma ZeroBits(i: nat)
    requires i < 8
    ensures !Has(ZERO.bits, Power(i))
  {
  }

  lemma {:induction false} BitOfValue(u: Poly, n: nat, i: nat)
    requires |u| == 8 && n <= 8 && i < 8
    ensures Has(ValueOf(u[..n]).bits, Power(i)) == (i < n && u[i])
  {
    hide Has, Power, Exp;
    ZeroBits(i);
    if n > 0 {
      assert u[..n][..n - 1] == u[..n - 1];
      BitOfValue(u, n - 1, i);
      LowPowers(n - 1);
      PowerBits(i, n - 1);
      AddBits(ValueOf(u[..n - 1]), Select(u[n - 1], Exp(n - 1)), i);
    }
  }

  /** Every polynomial of degree below eight stands for a byte. */
  lemma BitsOfValue(u: Poly)
    requires |u| == 8
    ensures Bits(ValueOf(u)) == u
  {
    hide Has, Power, ValueOf;
    assert u[..8] == u;
    forall i | 0 <= i < 8 ensures Bits(ValueOf(u))[i] == u[i] {
      BitOfValue(u, 8, i);
    }
  }

  /** Cancels the coefficient of x^n, n at least eight, by a shifted copy of the modulus. */
  lemma CancelTop(u: Poly, n: nat) returns (w: Poly)
    requires |u| == n + 1 && n >= 8
    ensures |w| == n && ValueOf(w) == ValueOf(u)
    ensures PolyPlus(u + [false], TermTimes(u[n], n - 8, MODULUS)) == w + [false] + [false]
  {
    hide ValueOf, Exp, Select;
    var t := TermTimes(u[n], n - 8, MODULUS);
    var v := PolyPlus(u + [false], t);
    w := v[..n];
    assert v == w + [false] + [false];
    ValuePlus(u + [false], t);
    ValuePadded(u);
    ValueTermTimes(u[n], n - 8, MODULUS);
    ModulusVanishes();
    MulZero(Select(u[n], Exp(n - 8)));
    AddZero(ValueOf(u));
    ValuePadded(w + [false]);
    ValuePadded(w);
  }

  lemma PlusAssoc(u: Poly, v: Poly, w: Poly)
    requires |u| == |v| == |w|
    ensures PolyPlus(u, PolyPlus(v, w)) == PolyPlus(PolyPlus(u, w), v)
  {
  }

  lemma PlusPadded(u: Poly, v: Poly)
    requires |u| == |v|
    ensures PolyPlus(u + [false], v + [false]) == PolyPlus(u, v) + [false]
  {
  }

  lemma TimesStep(q: Poly, c: bool, v: Poly)
    ensures PolyTimes(q + [c], v) == PolyPlus(PolyTimes(q, v) + [false], TermTimes(c, |q|, v))
  {
    assert (q + [c])[..|q|] == q;
  }

  lemma ReduceByte(u: Poly)
    requires |u| == 8
    ensures PolyPlus(u + [false], PolyTimes([], MODULUS)) == Bits(ValueOf(u)) + Nil(1)
  {
    hide ValueOf, Bits;
    BitsOfValue(u);
    assert PolyPlus(u + [false], Nil(9)) == u + Nil(1);
  }

  /** Division with remainder by the modulus: the remainder is the byte of the polynomial's value. */
  lemma {:induction false} Reduce(u: Poly) returns (q: Poly)
    requires |u| >= 8
    ensures |q| + 8 == |u|
    ensures PolyPlus(u + [false], PolyTimes(q, MODULUS)) == Bits(ValueOf(u)) + Nil(|u| - 7)
    decreases |u|
  {
    hide Bits, ValueOf, TermTimes, PolyTimes, PolyPlus;
    if |u| == 8 {
      q := [];
      ReduceByte(u);
    } else {
      var n := |u| - 1;
      var w := CancelTop(u, n);
      var p := Reduce(w);
      var s, t := PolyTimes(p, MODULUS), TermTimes(u[n], n - 8, MODULUS);
      q := p + [u[n]];
      TimesStep(p, u[n], MODULUS);
      PlusAssoc(u + [false], s + [false], t);
      PlusPadded(w + [false], s);
      assert Bits(ValueOf(u)) + Nil(n - 7) + [false] == Bits(ValueOf(u)) + Nil(n - 6);
    }
  }

  /** The field product of two bytes is the remainder of the product of their polynomials. */
  lemma ProductIsRemainder(a: Gf, b: Gf) returns (q: Poly)
    ensures |q| == 8
    ensures PolyPlus(PolyTimes(Bits(a), Bits(b)) + [false], PolyTimes(q, MODULUS)) == Bits(Mul(a, b)) + Nil(9)
  {
    hide ValueOf, PolyTimes, Bits;
    ProductOfBytes(a, b);
    q := Reduce(PolyTimes(Bits(a), Bits(b)));
  }

  /** v differs from u by q times the modulus, both padded with zeros to the length of that product. */
  ghost predicate DifferBy(u: Poly, v: Poly, q: Poly) {
    |u| == |v| == |q| && PolyPlus(u + Nil(9), PolyTimes(q, MODULUS)) == v + Nil(9)
  }

  lemma {:induction false} ValueLong(u: Poly, n: nat)
    ensures ValueOf(u + Nil(n)) == ValueOf(u)
  {
    hide ValueOf;
    if n == 0 {
      assert u + Nil(0) == u;
    } else {
      assert u + Nil(n) == u + Nil(n - 1) + [false];
      ValuePadded(u + Nil(n - 1));
      ValueLong(u, n - 1);
    }
  }

  lemma PlusSwap(a: Poly, b: Poly, c: Poly, d: Poly)
    requires |a| == |b| == |c| == |d|
    ensures PolyPlus(PolyPlus(a, b), PolyPlus(c, d)) == PolyPlus(PolyPlus(a, c), PolyPlus(b, d))
  {
  }

  lemma TermPlus(c: bool, d: bool, n: nat, v: Poly)
    ensures TermTimes(c != d, n, v) == PolyPlus(TermTimes(c, n, v), TermTimes(d, n, v))
  {
  }

  lemma {:induction false} TimesPlus(p: Poly, q: Poly, v: Poly)
    requires |p| == |q|
    ensures PolyTimes(PolyPlus(p, q), v) == PolyPlus(PolyTimes(p, v), PolyTimes(q, v))
  {
    hide PolyPlus, TermTimes;
    if p == [] {
      assert PolyPlus(Nil(|v|), Nil(|v|)) == Nil(|v|);
    } else {
      var n := |p| - 1;
      var s, t := PolyTimes(p[..n], v), PolyTimes(q[..n], v);
      assert PolyPlus(p, q)[..n] == PolyPlus(p[..n], q[..n]);
      TimesPlus(p[..n], q[..n], v);
      PlusPadded(s, t);
      TermPlus(p[n], q[n], n, v);
      PlusSwap(s + [false], t + [false], TermTimes(p[n], n, v), TermTimes(q[n], n, v));
    }
  }

  /** Polynomials have the same value exactly when they differ by a multiple of the modulus. */
  lemma SameValueIffCongruent(u: Poly, v: Poly)
    requires |u| == |v|
    ensures ValueOf(u) == ValueOf(v) <==> exists q :: DifferBy(u, v, q)
  {
    hide ValueOf, PolyTimes, Bits;
    ValueLong(u, 9);
    ValueLong(v, 9);
    if q :| DifferBy(u, v, q) {
      ValuePlus(u + Nil(9), PolyTimes(q, MODULUS));
      ValueTimes(q, MODULUS);
      ModulusVanishes();
      MulZero(ValueOf(q));
      AddZero(ValueOf(u));
    }
    if ValueOf(u) == ValueOf(v) {
      ValueLong(u, 8);
      ValueLong(v, 8);
      var p := Reduce(u + Nil(8));
      var q := Reduce(v + Nil(8));
      assert u + Nil(8) + [false] == u + Nil(9) && v + Nil(8) + [false] == v + Nil(9);
      TimesPlus(p, q, MODULUS);
      SameRemainder(u + Nil(9), v + Nil(9), PolyTimes(p, MODULUS), PolyTimes(q, MODULUS));
      assert DifferBy(u, v, PolyPlus(p, q));
    }
  }

  lemma SameRemainder(u: Poly, v: Poly, s: Poly, t: Poly)
    requires |u| == |v| == |s| == |t| && PolyPlus(u, s) == PolyPlus(v, t)
    ensures PolyPlus(u, PolyPlus(s, t)) == v
  {
    forall i | 0 <= i < |u| ensures PolyPlus(u, PolyPlus(s, t))[i] == v[i] {
      assert PolyPlus(u, s)[i] == PolyPlus(v, t)[i];
    }
  }
}
