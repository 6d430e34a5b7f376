/** The four look-up tables of the field and the loops that fill them (rtp/fec/fec_galois.c). */
module GaloisTables {
  import opened Gf256

  /** The tables once filled. Nothing writes them afterwards, so they are passed on as a value. */
  datatype Tables = Tables(polys: seq<Gf>, logs: seq<nat>, mul: seq<seq<Gf>>, inv: seq<Gf>) {

    ghost predicate Ready() {
      && ArePowers(polys)
      && AreLogs(logs)
      && |mul| == 256 && (forall i :: 0 <= i < 256 ==> IsProductRow(mul[i], i))
      && AreInverses(inv)
    }

    /** GF_MUL. */
    function Times(a: Gf, b: Gf): (r: Gf)
      requires Ready()
      ensures r == Mul(a, b)
    {
      ElemValue(a);
      ElemValue(b);
      assert IsProductRow(mul[Value(a)], Value(a));
      mul[Value(a)][Value(b)]
    }

    /** GF_INV. */
    function Inverse(a: Gf): (r: Gf)
      requires Ready()
      ensures r == Inv(a)
    {
      ElemValue(a);
      inv[Value(a)]
    }
  }

  /** GF_ADD. */
  function Plus(a: Gf, b: Gf): (r: Gf)
    ensures r == Add(a, b)
  {
    AddIsXor(a, b);
    Gf(a.bits ^ b.bits)
  }

  ghost predicate ArePowers(polys: seq<Gf>) {
    |polys| == 256 && forall i :: 0 <= i < 255 ==> polys[i] == Exp(i)
  }

  ghost predicate AreLogs(logs: seq<nat>) {
    && |logs| == 256
    && logs[0] == 255
    && forall i: nat {:trigger Exp(i)} | i < 255 :: logs[Value(Exp(i))] == i
  }

  ghost predicate IsProductRow(row: seq<Gf>, i: nat)
    requires i < 256
  {
    |row| == 256 && forall j :: 0 <= j < 256 ==> row[j] == Mul(Elem(i), Elem(j))
  }

  ghost predicate AreInverses(inv: seq<Gf>) {
    |inv| == 256 && forall i :: 0 <= i < 256 ==> inv[i] == Inv(Elem(i))
  }

  // ---------- powers and logarithms ----------

  const PRIM_POLY: string := "101110001"

  /** The coefficients of the field polynomial below x^n. */
  function LowTerms(n: nat): bv8
    requires n <= 8
  {
    if n == 0 then 0
    else LowTerms(n - 1) | (if PRIM_POLY[n - 1] == '1' then Power(n - 1) else 0)
  }

  lemma LowTermsAll()
    ensures Gf(LowTerms(8)) == Exp(8)
  {
    assert LowTerms(8) == 0x1d;
  }

  lemma PowerStep(i: nat)
    requires i < 7
    ensures Power(i + 1) == Power(i) << 1
  {
  }

  lemma ValueExpInjective(i: nat, j: nat)
    requires i < j < 255
    ensures Value(Exp(i)) != Value(Exp(j)) && Value(Exp(j)) != 0
  {
    hide Exp, Value, Elem;
    ExpInjective(i, j);
    ElemValue(Exp(i));
    ElemValue(Exp(j));
    ExpNonZero(j);
    ValueOfZero();
  }

  ghost predicate PowersUpTo(polys: array<Gf>, logs: array<nat>, n: nat)
    requires polys.Length == logs.Length == 256 && n <= 255
    reads polys, logs
  {
    && (forall i :: 0 <= i < n ==> polys[i] == Exp(i))
    && (forall i: nat {:trigger Exp(i)} | i < n :: logs[Value(Exp(i))] == i)
  }

  /** Remembers the logarithm of the power just stored. */
  method StoreLog(polys: array<Gf>, logs: array<nat>, i: nat)
    requires polys.Length == logs.Length == 256 && i < 255
    requires PowersUpTo(polys, logs, i) && polys[i] == Exp(i)
    modifies logs
    ensures PowersUpTo(polys, logs, i + 1)
  {
    hide Exp, Value;
    logs[Value(polys[i])] := i;
    forall j: nat | j < i ensures logs[Value(Exp(j))] == j {
      ValueExpInjective(j, i);
    }
  }

  /** One round of the first loop, on bits: g is the i-th power, low the terms of the polynomial below x^i. */
  lemma FirstPowerStep(i: nat, g: bv8, low: bv8)
    requires i < 8 && g == Power(i) && low == LowTerms(i)
    ensures Gf(g) == Exp(i)
    ensures i < 7 ==> g << 1 == Power(i + 1)
    ensures LowTerms(i + 1) == if PRIM_POLY[i] == '1' then low | g else low
  {
    hide Exp, Power;
    LowPowers(i);
    if i < 7 {
      PowerStep(i);
    }
    LowTermsStep(i);
  }

  lemma LowTermsStep(i: nat)
    requires i < 8
    ensures LowTerms(i + 1) == if PRIM_POLY[i] == '1' then LowTerms(i) | Power(i) else LowTerms(i)
  {
    hide Power;
    OrZero(LowTerms(i));
  }

  lemma OrZero(x: bv8)
    ensures x | 0 == x
  {
  }

  /** Stores g as the i-th power and, if the polynomial has the term, adds it to x^8. */
  method FirstPower(polys: array<Gf>, logs: array<nat>, i: nat, g: bv8)
    requires polys.Length == logs.Length == 256 && i < 8
    requires PowersUpTo(polys, logs, i) && Gf(g) == Exp(i)
    modifies polys, logs
    ensures PowersUpTo(polys, logs, i + 1)
    ensures polys[8] == Gf(if PRIM_POLY[i] == '1' then old(polys[8].bits) | g else old(polys[8].bits))
  {
    hide Exp, Value;
    polys[i] := Gf(g);
    StoreLog(polys, logs, i);
    if PRIM_POLY[i] == '1' {
      polys[8] := Gf(polys[8].bits | g);
    }
  }

  /** The first eight powers, and x^8 collected from the field polynomial. */
  method FirstPowers(polys: array<Gf>, logs: array<nat>)
    requires polys.Length == logs.Length == 256
    modifies polys, logs
    ensures PowersUpTo(polys, logs, 9)
  {
    polys[8] := Gf(0);
    var g: bv8 := 1;
    assert g == Power(0);
    for i := 0 to 8
      invariant PowersUpTo(polys, logs, i)
      invariant i < 8 ==> g == Power(i)
      invariant polys[8] == Gf(LowTerms(i))
    {
      hide Exp, Value, Power, LowTerms;
      FirstPowerStep(i, g, polys[8].bits);
      FirstPower(polys, logs, i, g);
      g := g << 1;
    }
    LowTermsAll();
    StoreLog(polys, logs, 8);
  }

  /** Each further power doubles the one before. */
  method FurtherPowers(polys: array<Gf>, logs: array<nat>)
    requires polys.Length == logs.Length == 256
    requires PowersUpTo(polys, logs, 9)
    modifies polys, logs
    ensures PowersUpTo(polys, logs, 255)
  {
    hide Value, DoubleBits;
    for i := 9 to 255
      invariant PowersUpTo(polys, logs, i)
    {
      var last := polys[i - 1].bits;
      EighthPower();
      DoubleBitsByCases(last);
      if last >= 0x80 {
        polys[i] := Gf(polys[8].bits ^ (last << 1));
      } else {
        polys[i] := Gf(last << 1);
      }
      assert polys[i] == Exp(i);
      StoreLog(polys, logs, i);
    }
  }

  // ---------- products and inverses ----------

  /** The logarithm table at a non-zero byte. */
  lemma LogOf(logs: seq<nat>, v: nat)
    requires AreLogs(logs) && 0 < v < 256
    ensures logs[v] < 255 && Exp(logs[v]) == Elem(v)
  {
    hide Exp, Value, Elem;
    var i := ExpOnto(v);
    assert logs[Value(Exp(i))] == i;
    ElemValue(Exp(i));
  }

  lemma ProductByLogs(polys: seq<Gf>, logs: seq<nat>, i: nat, j: nat)
    requires ArePowers(polys) && AreLogs(logs) && 0 < i < 256 && 0 < j < 256
    ensures |polys| == |logs| == 256 && logs[i] + logs[j] < 510
    ensures polys[(logs[i] + logs[j]) % 255] == Mul(Elem(i), Elem(j))
  {
    hide Exp, Value, Elem, Mul;
    LogOf(logs, i);
    LogOf(logs, j);
    ExpAdd(logs[i], logs[j]);
    ExpReduce(logs[i] + logs[j]);
  }

  ghost predicate ProductRows(mul: array2<Gf>, n: nat)
    requires mul.Length0 == mul.Length1 == 256 && n <= 256
    reads mul
  {
    forall i, j :: 0 <= i < n && 0 <= j < 256 ==> mul[i, j] == Mul(Elem(i), Elem(j))
  }

  method FillRow(polys: seq<Gf>, logs: seq<nat>, mul: array2<Gf>, i: nat)
    requires ArePowers(polys) && AreLogs(logs)
    requires mul.Length0 == mul.Length1 == 256 && i < 256
    requires ProductRows(mul, i)
    modifies mul
    ensures ProductRows(mul, i + 1)
  {
    hide Exp, Value, Elem, Mul, AreLogs, ArePowers;
    ValueOfZero();
    for j := 0 to 256
      invariant ProductRows(mul, i)
      invariant forall c :: 0 <= c < j ==> mul[i, c] == Mul(Elem(i), Elem(c))
    {
      if i == 0 || j == 0 {
        MulZero(Elem(i));
        MulZero(Elem(j));
        mul[i, j] := ZERO;
      } else {
        ProductByLogs(polys, logs, i, j);
        mul[i, j] := polys[(logs[i] + logs[j]) % 255];
      }
    }
  }

  method ClearBorder(mul: array2<Gf>, n: nat)
    requires mul.Length0 == mul.Length1 == 256 && n <= 256
    requires ProductRows(mul, n)
    modifies mul
    ensures ProductRows(mul, n)
  {
    hide Elem, Mul;
    ValueOfZero();
    for j := 0 to 256
      invariant ProductRows(mul, n)
    {
      MulZero(Elem(j));
      mul[j, 0] := ZERO;
      mul[0, j] := ZERO;
    }
  }

  method FillInverses(polys: seq<Gf>, logs: seq<nat>, inv: array<Gf>)
    requires ArePowers(polys) && AreLogs(logs) && inv.Length == 256
    modifies inv
    ensures AreInverses(inv[..])
  {
    hide Exp, Value, Elem, Mul;
    ValueOfZero();
    InvOne();
    inv[0] := ZERO;
    inv[1] := ONE;
    for i := 2 to 256
      invariant forall j :: 0 <= j < i ==> inv[j] == Inv(Elem(j))
    {
      InverseByLog(polys, logs, i);
      inv[i] := polys[255 - logs[i]];
    }
  }

  lemma InverseByLog(polys: seq<Gf>, logs: seq<nat>, i: nat)
    requires ArePowers(polys) && AreLogs(logs) && 1 < i < 256
    ensures 0 < logs[i] < 255 && polys[255 - logs[i]] == Inv(Elem(i))
  {
    hide Value, Elem, Mul, Inv, Double;
    LogOf(logs, i);
    ValueElem(i);
    ValueOfZero();
    OrderFacts();
    ExpAdd(logs[i], 255 - logs[i]);
    InverseUnique(Elem(i), Exp(255 - logs[i]));
  }

  method FillPowers(polys: array<Gf>, logs: array<nat>)
    requires polys.Length == logs.Length == 256
    modifies polys, logs
    ensures ArePowers(polys[..]) && AreLogs(logs[..])
  {
    hide Exp, Value;
    FirstPowers(polys, logs);
    FurtherPowers(polys, logs);
    logs[0] := 255;
    forall i: nat | i < 255 ensures logs[Value(Exp(i))] == i {
      ExpNonZero(i);
      ElemValue(Exp(i));
      ValueOfZero();
    }
  }

  method FillProducts(polys: seq<Gf>, logs: seq<nat>, mul: array2<Gf>)
    requires ArePowers(polys) && AreLogs(logs)
    requires mul.Length0 == mul.Length1 == 256
    modifies mul
    ensures ProductRows(mul, 256)
  {
    hide ArePowers, AreLogs;
    for i := 0 to 256
      invariant ProductRows(mul, i)
    {
      FillRow(polys, logs, mul, i);
      ClearBorder(mul, i + 1);
    }
  }

  /** gf_init: afterwards the tables hold the powers of x, their logarithms, all products and all inverses. */
  method GfInit() returns (gf: Tables)
    ensures gf.Ready()
  {
    hide ArePowers, AreLogs, AreInverses, Mul, Elem;
    var polys := new Gf[256](_ => ZERO);
    var logs := new nat[256](_ => 0);
    var mul := new Gf[256, 256]((_, _) => ZERO);
    var inv := new Gf[256](_ => ZERO);
    FillPowers(polys, logs);
    FillProducts(polys[..], logs[..], mul);
    FillInverses(polys[..], logs[..], inv);
    var rows := seq(256, i requires 0 <= i < 256 reads mul => seq(256, j requires 0 <= j < 256 reads mul => mul[i, j]));
    gf := Tables(polys[..], logs[..], rows, inv[..]);
  }

  /** The power and logarithm tables are inverse bijections between 0..254 and the non-zero bytes. */
  lemma PowersAndLogs(gf: Tables)
    requires gf.Ready()
    ensures |gf.polys| == |gf.logs| == 256
    ensures forall i: nat :: i < 255 ==> 0 < Value(gf.polys[i]) && gf.logs[Value(gf.polys[i])] == i
    ensures forall v: nat :: 0 < v < 256 ==> gf.logs[v] < 255 && Value(gf.polys[gf.logs[v]]) == v
  {
    hide Exp, Value, Elem;
    forall i: nat | i < 255 ensures 0 < Value(gf.polys[i]) && gf.logs[Value(gf.polys[i])] == i {
      ExpNonZero(i);
      ElemValue(Exp(i));
      ValueOfZero();
    }
    forall v: nat | 0 < v < 256 ensures gf.logs[v] < 255 && Value(gf.polys[gf.logs[v]]) == v {
      LogOf(gf.logs, v);
      ValueElem(v);
    }
  }
}
