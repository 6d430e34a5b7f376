/** The field with 256 elements that the erasure code computes in: bytes read as polynomials over
    GF(2), with x^8 = x^4 + x^3 + x^2 + 1.

    Sums and products are described by their bits and are otherwise left abstract, so that the
    matrix proofs built on this module only ever see the field laws at its end. */
module Gf256 {
  import opened Pigeonhole

  datatype Gf = Gf(bits: bv8)

  const ZERO := Gf(0)
  const ONE := Gf(1)

  /** m selects one coefficient of a polynomial. */
  predicate OneBit(m: bv8) {
    m == 0x01 || m == 0x02 || m == 0x04 || m == 0x08 || m == 0x10 || m == 0x20 || m == 0x40 || m == 0x80
  }

  predicate Has(x: bv8, m: bv8) {
    x & m != 0
  }

  lemma SameBits(a: Gf, b: Gf)
    requires forall m: bv8 | OneBit(m) :: Has(a.bits, m) == Has(b.bits, m)
    ensures a == b
  {
    assert Has(a.bits, 0x01) == Has(b.bits, 0x01) && Has(a.bits, 0x02) == Has(b.bits, 0x02);
    assert Has(a.bits, 0x04) == Has(b.bits, 0x04) && Has(a.bits, 0x08) == Has(b.bits, 0x08);
    assert Has(a.bits, 0x10) == Has(b.bits, 0x10) && Has(a.bits, 0x20) == Has(b.bits, 0x20);
    assert Has(a.bits, 0x40) == Has(b.bits, 0x40) && Has(a.bits, 0x80) == Has(b.bits, 0x80);
    SameByte(a.bits, b.bits);
  }

  lemma SameByte(a: bv8, b: bv8)
    requires (a & 0x01 != 0) == (b & 0x01 != 0) && (a & 0x02 != 0) == (b & 0x02 != 0)
    requires (a & 0x04 != 0) == (b & 0x04 != 0) && (a & 0x08 != 0) == (b & 0x08 != 0)
    requires (a & 0x10 != 0) == (b & 0x10 != 0) && (a & 0x20 != 0) == (b & 0x20 != 0)
    requires (a & 0x40 != 0) == (b & 0x40 != 0) && (a & 0x80 != 0) == (b & 0x80 != 0)
    ensures a == b
  {
  }

  // ---------- addition ----------

  /** r is the sum of a and b: each of its coefficients is the exclusive or of theirs. */
  ghost predicate IsSum(a: Gf, b: Gf, r: Gf) {
    forall m: bv8 {:trigger Has(r.bits, m)} | OneBit(m) :: Has(r.bits, m) == (Has(a.bits, m) != Has(b.bits, m))
  }

  lemma XorIsSum(a: Gf, b: Gf)
    ensures IsSum(a, b, Gf(a.bits ^ b.bits))
  {
    hide Has, OneBit;
    forall m: bv8 | OneBit(m) ensures Has(a.bits ^ b.bits, m) == (Has(a.bits, m) != Has(b.bits, m)) {
      XorHas(a.bits, b.bits, m);
    }
  }

  lemma XorHas(x: bv8, y: bv8, m: bv8)
    requires OneBit(m)
    ensures Has(x ^ y, m) == (Has(x, m) != Has(y, m))
  {
  }

  ghost function Add(a: Gf, b: Gf): Gf {
    XorIsSum(a, b);
    var r :| IsSum(a, b, r);
    r
  }

  /** Addition in the code is exclusive or. */
  lemma AddIsXor(a: Gf, b: Gf)
    ensures Add(a, b) == Gf(a.bits ^ b.bits)
  {
    XorIsSum(a, b);
    SameBits(Add(a, b), Gf(a.bits ^ b.bits));
  }

  lemma AddComm(a: Gf, b: Gf)
    ensures Add(a, b) == Add(b, a)
  {
    SameBits(Add(a, b), Add(b, a));
  }

  lemma AddAssoc(a: Gf, b: Gf, c: Gf)
    ensures Add(Add(a, b), c) == Add(a, Add(b, c))
  {
    SameBits(Add(Add(a, b), c), Add(a, Add(b, c)));
  }

  lemma AddZero(a: Gf)
    ensures Add(a, ZERO) == a && Add(ZERO, a) == a
  {
    SameBits(Add(a, ZERO), a);
    AddComm(a, ZERO);
  }

  lemma AddSelf(a: Gf)
    ensures Add(a, a) == ZERO
  {
    SameBits(Add(a, a), ZERO);
  }

  /** Swaps the inner two of four summands. */
  lemma AddSwap(a: Gf, b: Gf, c: Gf, d: Gf)
    ensures Add(Add(a, b), Add(c, d)) == Add(Add(a, c), Add(b, d))
  {
    SameBits(Add(Add(a, b), Add(c, d)), Add(Add(a, c), Add(b, d)));
  }

  // ---------- doubling: multiplication by x ----------

  function DoubleBits(x: bv8): bv8 {
    (x << 1) ^ ((x >> 7) * 0x1d)
  }

  function Double(a: Gf): Gf {
    Gf(DoubleBits(a.bits))
  }

  lemma DoubleBitsXor(x: bv8, y: bv8)
    ensures DoubleBits(x ^ y) == DoubleBits(x) ^ DoubleBits(y)
  {
  }

  /** The form the table loop uses: shift, and subtract the field polynomial if x^8 came out. */
  lemma DoubleBitsByCases(x: bv8)
    ensures DoubleBits(x) == if x >= 0x80 then 0x1d ^ (x << 1) else x << 1
  {
    if x >= 0x80 {
      assert x >> 7 == 1;
    } else {
      assert x >> 7 == 0;
    }
  }

  lemma DoubleAdd(a: Gf, b: Gf)
    ensures Double(Add(a, b)) == Add(Double(a), Double(b))
  {
    hide DoubleBits, Add;
    AddIsXor(a, b);
    AddIsXor(Double(a), Double(b));
    DoubleBitsXor(a.bits, b.bits);
  }

  /** a multiplied by x^n. */
  function Shift(a: Gf, n: nat): Gf {
    if n == 0 then a else Double(Shift(a, n - 1))
  }

  lemma {:induction false} ShiftAdd(a: Gf, b: Gf, n: nat)
    ensures Shift(Add(a, b), n) == Add(Shift(a, n), Shift(b, n))
  {
    hide Double;
    if n > 0 {
      ShiftAdd(a, b, n - 1);
      DoubleAdd(Shift(a, n - 1), Shift(b, n - 1));
    }
  }

  lemma {:induction false} ShiftShift(a: Gf, m: nat, n: nat)
    ensures Shift(Shift(a, m), n) == Shift(a, m + n)
  {
    hide Double;
    if n > 0 {
      ShiftShift(a, m, n - 1);
    }
  }

  lemma {:induction false} ShiftZero(n: nat)
    ensures Shift(ZERO, n) == ZERO
  {
    if n > 0 {
      ShiftZero(n - 1);
    }
  }

  // ---------- multiplication ----------

  /** The coefficient of x^i, as a mask. */
  function Power(i: nat): (m: bv8)
    requires i < 8
    ensures OneBit(m)
  {
    match i
    case 0 => 0x01
    case 1 => 0x02
    case 2 => 0x04
    case 3 => 0x08
    case 4 => 0x10
    case 5 => 0x20
    case 6 => 0x40
    case 7 => 0x80
  }

  function Select(c: bool, a: Gf): Gf {
    if c then a else ZERO
  }

  /** The sum of a * x^i over the i below n for which b has a term x^i. */
  ghost function Partial(a: Gf, b: Gf, n: nat): Gf
    requires n <= 8
  {
    if n == 0 then ZERO
    else Add(Partial(a, b, n - 1), Select(Has(b.bits, Power(n - 1)), Shift(a, n - 1)))
  }

  ghost predicate Width(n: nat) {
    n == 8
  }

  /** r is the product of a and b: the sum over all terms of b. */
  ghost predicate IsProduct(a: Gf, b: Gf, r: Gf) {
    forall n: nat {:trigger Width(n)} | Width(n) :: r == Partial(a, b, n)
  }

  ghost function Mul(a: Gf, b: Gf): Gf {
    assert IsProduct(a, b, Partial(a, b, 8));
    var r :| IsProduct(a, b, r);
    r
  }

  lemma MulIsPartial(a: Gf, b: Gf, n: nat)
    requires Width(n)
    ensures Mul(a, b) == Partial(a, b, n)
  {
    hide Width;
  }

  lemma {:induction false} PartialAdd(a: Gf, b: Gf, c: Gf, n: nat)
    requires n <= 8
    ensures Partial(Add(a, b), c, n) == Add(Partial(a, c, n), Partial(b, c, n))
  {
    hide Has, Power, Shift, Add;
    if n == 0 {
      AddZero(ZERO);
    } else {
      var h := Has(c.bits, Power(n - 1));
      PartialAdd(a, b, c, n - 1);
      ShiftAdd(a, b, n - 1);
      AddZero(ZERO);
      AddSwap(Partial(a, c, n - 1), Partial(b, c, n - 1), Select(h, Shift(a, n - 1)), Select(h, Shift(b, n - 1)));
    }
  }

  lemma {:induction false} PartialShift(a: Gf, b: Gf, m: nat, n: nat)
    requires n <= 8
    ensures Partial(Shift(a, m), b, n) == Shift(Partial(a, b, n), m)
  {
    hide Has, Power, Shift, Add;
    ShiftZero(m);
    if n > 0 {
      var t := Select(Has(b.bits, Power(n - 1)), Shift(a, n - 1));
      PartialShift(a, b, m, n - 1);
      ShiftShift(a, m, n - 1);
      ShiftShift(a, n - 1, m);
      ShiftAdd(Partial(a, b, n - 1), t, m);
    }
  }

  lemma {:induction false} PartialZero(b: Gf, n: nat)
    requires n <= 8
    ensures Partial(ZERO, b, n) == ZERO
  {
    hide Has, Power, Shift, Add;
    if n > 0 {
      PartialZero(b, n - 1);
      ShiftZero(n - 1);
      AddZero(ZERO);
    }
  }

  /** Multiplying a sum of shifted copies of a is the same as summing shifted copies of the product. */
  lemma {:induction false} PartialPartial(a: Gf, b: Gf, c: Gf, m: nat, n: nat)
    requires m <= 8 && n <= 8
    ensures Partial(Partial(a, c, n), b, m) == Partial(Partial(a, b, m), c, n)
  {
    hide Has, Power, Shift, Add;
    if n == 0 {
      PartialZero(b, m);
    } else {
      var t := Select(Has(c.bits, Power(n - 1)), Shift(a, n - 1));
      PartialPartial(a, b, c, m, n - 1);
      PartialAdd(Partial(a, c, n - 1), t, b, m);
      PartialShift(a, b, n - 1, m);
      PartialZero(b, m);
    }
  }

  /** Reading b one coefficient further. */
  lemma LowStep(x: bv8, low: bv8, m: bv8)
    requires OneBit(m) && low & m == 0
    ensures Add(Gf(x & low), Select(Has(x, m), Gf(m))) == Gf(x & (low | m))
  {
    hide Add, OneBit;
    LowStepBits(x, low, m);
    AddIsXor(Gf(x & low), Select(Has(x, m), Gf(m)));
  }

  lemma LowStepBits(x: bv8, low: bv8, m: bv8)
    requires OneBit(m) && low & m == 0
    ensures (x & low) ^ (if x & m != 0 then m else 0) == x & (low | m)
  {
  }

  lemma PowersOfX()
    ensures Shift(ONE, 0) == Gf(0x01) && Shift(ONE, 1) == Gf(0x02)
    ensures Shift(ONE, 2) == Gf(0x04) && Shift(ONE, 3) == Gf(0x08)
    ensures Shift(ONE, 4) == Gf(0x10) && Shift(ONE, 5) == Gf(0x20)
    ensures Shift(ONE, 6) == Gf(0x40) && Shift(ONE, 7) == Gf(0x80)
  {
  }

  lemma PartialOne(b: Gf)
    ensures Partial(ONE, b, 8) == b
  {
    hide Has, Add, Shift;
    PowersOfX();
    var x := b.bits;
    LowStep(x, 0x00, 0x01);
    LowStep(x, 0x01, 0x02);
    LowStep(x, 0x03, 0x04);
    LowStep(x, 0x07, 0x08);
    LowStep(x, 0x0f, 0x10);
    LowStep(x, 0x1f, 0x20);
    LowStep(x, 0x3f, 0x40);
    LowStep(x, 0x7f, 0x80);
    assert Partial(ONE, b, 1) == Gf(x & 0x01);
    assert Partial(ONE, b, 2) == Gf(x & 0x03);
    assert Partial(ONE, b, 3) == Gf(x & 0x07);
    assert Partial(ONE, b, 4) == Gf(x & 0x0f);
    assert Partial(ONE, b, 5) == Gf(x & 0x1f);
    assert Partial(ONE, b, 6) == Gf(x & 0x3f);
    assert Partial(ONE, b, 7) == Gf(x & 0x7f);
  }

  // ---------- the field laws of multiplication ----------

  lemma MulComm(a: Gf, b: Gf)
    ensures Mul(a, b) == Mul(b, a)
  {
    hide Partial, Mul;
    MulIsPartial(a, b, 8);
    MulIsPartial(b, a, 8);
    PartialOne(a);
    PartialOne(b);
    PartialPartial(ONE, b, a, 8, 8);
  }

  lemma MulAssoc(a: Gf, b: Gf, c: Gf)
    ensures Mul(Mul(a, b), c) == Mul(a, Mul(b, c))
  {
    hide Partial, Mul;
    MulIsPartial(b, a, 8);
    MulIsPartial(b, c, 8);
    MulIsPartial(Mul(b, a), c, 8);
    MulIsPartial(Mul(b, c), a, 8);
    PartialPartial(b, c, a, 8, 8);
    MulComm(a, b);
    MulComm(a, Mul(b, c));
  }

  lemma MulAdd(a: Gf, b: Gf, c: Gf)
    ensures Mul(Add(a, b), c) == Add(Mul(a, c), Mul(b, c))
    ensures Mul(c, Add(a, b)) == Add(Mul(c, a), Mul(c, b))
  {
    hide Partial, Mul, Add;
    MulIsPartial(Add(a, b), c, 8);
    MulIsPartial(a, c, 8);
    MulIsPartial(b, c, 8);
    PartialAdd(a, b, c, 8);
    MulComm(Add(a, b), c);
    MulComm(a, c);
    MulComm(b, c);
  }

  lemma MulOne(a: Gf)
    ensures Mul(ONE, a) == a && Mul(a, ONE) == a
  {
    hide Partial, Mul;
    MulIsPartial(ONE, a, 8);
    PartialOne(a);
    MulComm(ONE, a);
  }

  lemma MulZero(a: Gf)
    ensures Mul(ZERO, a) == ZERO && Mul(a, ZERO) == ZERO
  {
    hide Partial, Mul;
    MulIsPartial(ZERO, a, 8);
    PartialZero(a, 8);
    MulComm(ZERO, a);
  }

  // ---------- powers of the primitive element x ----------

  function Exp(n: nat): Gf {
    Shift(ONE, n)
  }

  lemma LowPowers(n: nat)
    requires n < 8
    ensures Exp(n) == Gf(Power(n))
  {
    PowersOfX();
  }

  lemma EighthPower()
    ensures Exp(8) == Gf(0x1d)
  {
  }

  lemma ExpAdd(m: nat, n: nat)
    ensures Mul(Exp(m), Exp(n)) == Exp(m + n)
  {
    hide Partial, Mul, Double;
    MulIsPartial(Exp(m), Exp(n), 8);
    MulIsPartial(ONE, Exp(n), 8);
    PartialShift(ONE, Exp(n), m, 8);
    MulOne(Exp(n));
    ShiftShift(ONE, n, m);
  }

  lemma OrbitTo51()
    ensures Exp(15) == Gf(0x26)
    ensures Exp(51) == Gf(0x0a)
  {
    assert Shift(Gf(0x01), 10) == Gf(0x74); ShiftShift(ONE, 0, 10);
    assert Shift(Gf(0x74), 5) == Gf(0x26); ShiftShift(ONE, 10, 5);
    assert Shift(Gf(0x26), 10) == Gf(0x03); ShiftShift(ONE, 15, 10);
    assert Shift(Gf(0x03), 10) == Gf(0x9c); ShiftShift(ONE, 25, 10);
    assert Shift(Gf(0x9c), 10) == Gf(0xc1); ShiftShift(ONE, 35, 10);
    assert Shift(Gf(0xc1), 6) == Gf(0x0a); ShiftShift(ONE, 45, 6);
  }

  lemma OrbitTo85()
    ensures Exp(85) == Gf(0xd6)
  {
    OrbitTo51();
    assert Shift(Gf(0x0a), 10) == Gf(0x6f); ShiftShift(ONE, 51, 10);
    assert Shift(Gf(0x6f), 10) == Gf(0xbc); ShiftShift(ONE, 61, 10);
    assert Shift(Gf(0xbc), 10) == Gf(0xe7); ShiftShift(ONE, 71, 10);
    assert Shift(Gf(0xe7), 4) == Gf(0xd6); ShiftShift(ONE, 81, 4);
  }

  lemma OrbitTo145()
    ensures Exp(145) == Gf(0x4d)
  {
    OrbitTo85();
    assert Shift(Gf(0xd6), 10) == Gf(0xe2); ShiftShift(ONE, 85, 10);
    assert Shift(Gf(0xe2), 10) == Gf(0x1a); ShiftShift(ONE, 95, 10);
    assert Shift(Gf(0x1a), 10) == Gf(0x7c); ShiftShift(ONE, 105, 10);
    assert Shift(Gf(0x7c), 10) == Gf(0x33); ShiftShift(ONE, 115, 10);
    assert Shift(Gf(0x33), 10) == Gf(0xa9); ShiftShift(ONE, 125, 10);
    assert Shift(Gf(0xa9), 10) == Gf(0x4d); ShiftShift(ONE, 135, 10);
  }

  lemma OrbitTo205()
    ensures Exp(205) == Gf(0xa7)
  {
    OrbitTo145();
    assert Shift(Gf(0x4d), 10) == Gf(0x72); ShiftShift(ONE, 145, 10);
    assert Shift(Gf(0x72), 10) == Gf(0x91); ShiftShift(ONE, 155, 10);
    assert Shift(Gf(0x91), 10) == Gf(0xff); ShiftShift(ONE, 165, 10);
    assert Shift(Gf(0xff), 10) == Gf(0x37); ShiftShift(ONE, 175, 10);
    assert Shift(Gf(0x37), 10) == Gf(0x64); ShiftShift(ONE, 185, 10);
    assert Shift(Gf(0x64), 10) == Gf(0xa7); ShiftShift(ONE, 195, 10);
  }

  lemma OrbitTo255()
    ensures Exp(255) == Gf(0x01)
  {
    OrbitTo205();
    assert Shift(Gf(0xa7), 10) == Gf(0xef); ShiftShift(ONE, 205, 10);
    assert Shift(Gf(0xef), 10) == Gf(0x24); ShiftShift(ONE, 215, 10);
    assert Shift(Gf(0x24), 10) == Gf(0xeb); ShiftShift(ONE, 225, 10);
    assert Shift(Gf(0xeb), 10) == Gf(0xe9); ShiftShift(ONE, 235, 10);
    assert Shift(Gf(0xe9), 10) == Gf(0x01); ShiftShift(ONE, 245, 10);
  }

  /** The order of x divides 255 and none of the maximal proper divisors of 255. */
  lemma OrderFacts()
    ensures Exp(255) == ONE && Exp(15) != ONE && Exp(51) != ONE && Exp(85) != ONE
  {
    hide Shift;
    OrbitTo51();
    OrbitTo85();
    OrbitTo255();
  }

  lemma {:induction false} ExpMultiple(d: nat, q: nat)
    requires Exp(d) == ONE
    ensures Exp(q * d) == ONE
  {
    hide Mul, Double;
    if q > 0 {
      ExpMultiple(d, q - 1);
      ExpAdd((q - 1) * d, d);
      MulOne(ONE);
      assert (q - 1) * d + d == q * d;
    }
  }

  lemma ExpReduce(m: nat)
    ensures Exp(m) == Exp(m % 255)
  {
    hide Shift;
    var q := m / 255;
    OrderFacts();
    ExpMultiple(255, q);
    ExpAdd(q * 255, m % 255);
    MulOne(Exp(m % 255));
  }

  lemma ProperDivisor(q: nat, d: nat)
    requires q * d == 255 && 2 <= q
    ensures exists c: nat :: c * d == 85 || c * d == 51 || c * d == 15
  {
    Factor255(q, d);
    if q % 3 == 0 {
      assert (q / 3) * d == 85;
    } else if q % 5 == 0 {
      assert (q / 5) * d == 51;
    } else {
      assert (q / 17) * d == 15;
    }
  }

  lemma Factor255(q: nat, d: nat)
    requires q * d == 255 && 2 <= q
    ensures q % 3 == 0 || q % 5 == 0 || q % 17 == 0
  {
    if q > 15 {
      assert d < 17;
    }
  }

  lemma {:induction false} OrderAtLeast255(d: nat)
    requires 0 < d < 255
    ensures Exp(d) != ONE
    decreases d
  {
    hide Shift, Mul;
    OrderFacts();
    if Exp(d) == ONE {
      var q, r := 255 / d, 255 % d;
      ExpMultiple(d, q);
      ExpAdd(q * d, r);
      MulOne(Exp(r));
      if r > 0 {
        OrderAtLeast255(r);
      } else {
        ProperDivisor(q, d);
        var c: nat :| c * d == 85 || c * d == 51 || c * d == 15;
        ExpMultiple(d, c);
      }
    }
  }

  lemma ExpInjective(i: nat, j: nat)
    requires i < j < 255
    ensures Exp(i) != Exp(j)
  {
    hide Shift, Mul;
    OrderFacts();
    OrderAtLeast255(j - i);
    ExpAdd(i, 255 - i);
    ExpAdd(j, 255 - i);
    ExpAdd(j - i, 255);
    MulOne(Exp(j - i));
  }

  lemma ExpNonZero(i: nat)
    requires i < 255
    ensures Exp(i) != ZERO
  {
    hide Shift, Mul;
    OrderFacts();
    ExpAdd(i, 255 - i);
    MulZero(Exp(255 - i));
  }

  // ---------- bytes as table indices ----------

  function Value(a: Gf): (v: nat)
    ensures v < 256
  {
    a.bits as int
  }

  function Elem(v: nat): Gf
    requires v < 256
  {
    Gf(v as bv8)
  }

  lemma ElemValue(a: Gf)
    ensures Elem(Value(a)) == a
  {
  }

  lemma ValueOfZero()
    ensures Value(ZERO) == 0 && Elem(0) == ZERO && Value(ONE) == 1 && Elem(1) == ONE
  {
  }

  /** The powers of x run through all non-zero bytes. */
  lemma ExpOnto(v: nat) returns (i: nat)
    requires 0 < v < 256
    ensures i < 255 && Value(Exp(i)) == v
  {
    hide Exp, Value, Elem;
    ValueOfZero();
    forall j: nat | j < 255 ensures Value(Exp(j)) != 0 {
      ExpNonZero(j);
      ElemValue(Exp(j));
    }
    var s: seq<nat> := seq(255, j requires 0 <= j < 255 => Value(Exp(j)) - 1);
    forall i, j | 0 <= i < j < 255 ensures s[i] != s[j] {
      ExpInjective(i, j);
      ElemValue(Exp(i));
      ElemValue(Exp(j));
    }
    Pigeons(s, v - 1);
    i :| 0 <= i < 255 && s[i] == v - 1;
  }

  lemma ValueElem(v: nat)
    requires v < 256
    ensures Value(Elem(v)) == v
  {
    hide Exp, Value, Elem;
    ValueOfZero();
    if v > 0 {
      var i := ExpOnto(v);
      ElemValue(Exp(i));
    }
  }

  /** Every non-zero element is a power of x. */
  lemma ExpSurjective(a: Gf) returns (i: nat)
    requires a != ZERO
    ensures i < 255 && Exp(i) == a
  {
    hide Exp, Value, Elem;
    ValueOfZero();
    ElemValue(a);
    i := ExpOnto(Value(a));
    ElemValue(Exp(i));
  }

  // ---------- inverses ----------

  ghost predicate IsInverse(a: Gf, r: Gf) {
    if a == ZERO then r == ZERO else Mul(a, r) == ONE
  }

  lemma InverseExists(a: Gf)
    ensures exists r :: IsInverse(a, r)
  {
    hide Exp, Mul;
    if a == ZERO {
      assert IsInverse(a, ZERO);
    } else {
      var i := ExpSurjective(a);
      OrderFacts();
      ExpAdd(i, 255 - i);
      assert IsInverse(a, Exp(255 - i));
    }
  }

  /** The multiplicative inverse; zero is sent to zero, as the code does. */
  ghost function Inv(a: Gf): Gf {
    InverseExists(a);
    var r :| IsInverse(a, r);
    r
  }

  lemma InverseUnique(a: Gf, r: Gf)
    requires a != ZERO && Mul(a, r) == ONE
    ensures r == Inv(a)
  {
    hide Mul;
    MulAssoc(Inv(a), a, r);
    MulComm(Inv(a), a);
    MulOne(r);
    MulOne(Inv(a));
  }

  lemma NoZeroDivisors(a: Gf, b: Gf)
    requires Mul(a, b) == ZERO
    ensures a == ZERO || b == ZERO
  {
    hide Mul;
    if a != ZERO {
      MulAssoc(Inv(a), a, b);
      MulComm(Inv(a), a);
      MulOne(b);
      MulZero(Inv(a));
    }
  }

  lemma InvNonZero(a: Gf)
    requires a != ZERO
    ensures Inv(a) != ZERO && Mul(a, Inv(a)) == ONE && Mul(Inv(a), a) == ONE
  {
    hide Mul;
    MulComm(a, Inv(a));
    MulZero(a);
  }

  lemma InvOne()
    ensures Inv(ONE) == ONE
  {
    hide Mul;
    MulOne(ONE);
    InverseUnique(ONE, ONE);
  }
}
