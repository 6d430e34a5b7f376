/** The encoder and decoder of the erasure code (rtp/fec/fec.c). */
module FecCodec {
  import opened Pigeonhole
  import opened Gf256
  import opened GaloisTables
  import opened LinearAlgebra
  import opened Polynomials
  import opened ErasureCode
  import opened FlatMatrix
  import opened MatrixInverse
  import opened VandermondeInversion
  import opened Shuffle

  // ---------- building the generator matrix ----------

  lemma {:induction false} StartSum(i: nat, j: nat, k: nat)
    ensures Start(i + j, k) == Start(i, k) + Start(j, k)
  {
    if j > 0 {
      StartSum(i, j - 1, k);
    }
  }

  lemma LowerBlockRow(s: seq<Gf>, r: nat, n: nat, k: nat, i: nat)
    requires r + i < n && Start(n, k) <= |s| && Start(r, k) + Start(n - r, k) <= |s|
    ensures Block(s, Start(r, k), n - r, k)[i] == Block(s, 0, n, k)[r + i]
  {
    hide Start, Block;
    StartSum(r, i, k);
    BlockRow(s, Start(r, k), n - r, k, i);
    BlockRow(s, 0, n, k, r + i);
  }

  /** The rows from r on are the block that begins where row r begins. */
  lemma LowerBlock(s: seq<Gf>, r: nat, n: nat, k: nat)
    requires r <= n && Start(n, k) <= |s|
    ensures Start(r, k) + Start(n - r, k) == Start(n, k)
    ensures Block(s, Start(r, k), n - r, k) == Block(s, 0, n, k)[r..]
  {
    hide Start, Block;
    StartSum(r, n - r, k);
    var lower, upper := Block(s, Start(r, k), n - r, k), Block(s, 0, n, k)[r..];
    forall i | 0 <= i < n - r ensures lower[i] == upper[i] {
      LowerBlockRow(s, r, n, k, i);
    }
  }

  lemma UpperBlock(s: seq<Gf>, r: nat, n: nat, k: nat)
    requires r <= n && Start(n, k) <= |s|
    ensures Start(r, k) <= Start(n, k) && Block(s, 0, r, k) == Block(s, 0, n, k)[..r]
  {
    StartSum(r, n - r, k);
    forall i | 0 <= i < r ensures Block(s, 0, r, k)[i] == Block(s, 0, n, k)[i] {
      BlockRow(s, 0, r, k, i);
      BlockRow(s, 0, n, k, i);
    }
  }

  /** One row of powers of an element x^row. */
  method FillPowerRow(gf: Tables, a: array<Gf>, p: nat, k: nat, row: nat)
    requires gf.Ready() && p + k <= a.Length && row < 255
    modifies a
    ensures a[p..p + k] == Powers(Point(row + 1), k)
    ensures SameOutside(old(a[..]), a[..], p, k)
  {
    ghost var v := Powers(Point(row + 1), k);
    for col := 0 to k
      invariant a[p..p + col] == v[..col]
      invariant SameOutside(old(a[..]), a[..], p, k)
    {
      hide Powers, Exp, Pow;
      PowerEntry(gf, k, row, col);
      a[p + col] := gf.polys[(row * col) % 255];
    }
  }

  lemma PowerEntry(gf: Tables, k: nat, row: nat, col: nat)
    requires gf.Ready() && row < 255 && col < k
    ensures |gf.polys| == 256 && gf.polys[(row * col) % 255] == Powers(Point(row + 1), k)[col]
  {
    hide Exp;
    PowOfExp(row, col);
  }

  /** The powers of zero. */
  method FillFirstRow(a: array<Gf>, k: nat)
    requires 0 < k <= a.Length
    modifies a
    ensures a[..k] == Powers(Point(0), k)
    ensures SameOutside(old(a[..]), a[..], 0, k)
  {
    ghost var v := Powers(Point(0), k);
    a[0] := ONE;
    for col := 1 to k
      invariant a[..col] == v[..col]
      invariant SameOutside(old(a[..]), a[..], 0, k)
    {
      PowOfZero(col);
      a[col] := ZERO;
    }
  }

  /** The n by k Vandermonde matrix on zero and the first n - 1 powers of x. */
  method FillVandermonde(gf: Tables, a: array<Gf>, k: nat, n: nat)
    requires gf.Ready() && 1 <= k <= n <= 256 && a.Length == Start(n, k)
    modifies a
    ensures Block(a[..], 0, n, k) == Vandermonde(FirstPoints(n), k)
  {
    hide Tables.Ready, Start, Block, Powers, Point, Vandermonde, FirstPoints;
    ghost var v := Vandermonde(FirstPoints(n), k);
    StartNext(0, k);
    BlockRow(a[..], 0, n, k, 0);
    ghost var before := a[..];
    FillFirstRow(a, k);
    SetRow(before, a[..], n, k, 0);
    var p := k;
    for row := 0 to n - 1
      invariant p == Start(row + 1, k)
      invariant forall i :: 0 <= i <= row ==> Block(a[..], 0, n, k)[i] == v[i]
    {
      StartNext(row + 1, k);
      BlockRow(a[..], 0, n, k, row + 1);
      ghost var s := a[..];
      FillPowerRow(gf, a, p, k, row);
      SetRow(s, a[..], n, k, row + 1);
      p := p + k;
    }
    assert Block(a[..], 0, n, k) == v;
  }

  /** Replaces the first k rows by the inverse of the matrix they form; for k = 1 they already are it. */
  method InvertTop(gf: Tables, a: array<Gf>, k: nat, n: nat)
    requires gf.Ready() && 1 <= k <= n <= 256 && a.Length == Start(n, k)
    requires Block(a[..], 0, n, k) == Vandermonde(FirstPoints(n), k)
    modifies a
    ensures Start(k, k) <= a.Length && Block(a[..], 0, k, k) == VandermondeInverse(FirstPoints(k))
    ensures forall p :: Start(k, k) <= p < a.Length ==> a[p] == old(a[p])
  {
    hide Tables.Ready, Start, Block, Points, Powers, Point, VandermondeInverse;
    UpperBlock(a[..], k, n, k);
    assert FirstPoints(n)[..k] == FirstPoints(k);
    assert Block(a[..], 0, k, k) == Vandermonde(FirstPoints(k), k);
    FirstPointsDistinct(k);
    if k > 1 {
      InvertsItsInput(Block(a[..], 0, k, k), k, FirstPoints(k));
    } else {
      OneByOne(FirstPoints(1));
    }
    var _ := MatrixInvVandermonde(gf, a, k);
  }

  /** A Vandermonde matrix with one point is its own inverse. */
  lemma OneByOne(ps: seq<Gf>)
    requires |ps| == 1
    ensures VandermondeInverse(ps) == Vandermonde(ps, 1)
  {
    var w, b := VandermondeInverse(ps), Numerator(ps, 0);
    LeadingQuotient(Master(ps), ps[0]);
    assert b == [ONE];
    assert b[1..] == [];
    MulZero(ps[0]);
    AddZero(ONE);
    InvOne();
    MulOne(ONE);
    assert Eval(b, ps[0]) == ONE;
    assert w[0][0] == ONE;
    assert w[0] == Powers(ps[0], 1);
    assert w == Vandermonde(ps, 1);
  }

  /** Writes the identity matrix into the first k rows. */
  method FillIdentity(a: array<Gf>, k: nat, n: nat)
    requires k <= n && a.Length == Start(n, k)
    modifies a
    ensures forall i :: 0 <= i < n ==>
      Block(a[..], 0, n, k)[i] == if i < k then Unit(k, i) else old(Block(a[..], 0, n, k))[i]
  {
    hide Start, Block;
    ghost var m := Block(a[..], 0, n, k);
    for row := 0 to k
      invariant forall i :: 0 <= i < n ==> Block(a[..], 0, n, k)[i] == if i < row then Unit(k, i) else m[i]
    {
      StartIs(row, k);
      BlockRow(a[..], 0, n, k, row);
      ghost var s := a[..];
      FillUnit(a, row * k, k, row);
      SetRow(s, a[..], n, k, row);
    }
  }

  method FillUnit(a: array<Gf>, p: nat, k: nat, row: nat)
    requires p + k <= a.Length
    modifies a
    ensures a[p..p + k] == Unit(k, row)
    ensures SameOutside(old(a[..]), a[..], p, k)
  {
    for col := 0 to k
      invariant a[p..p + col] == Unit(k, row)[..col]
      invariant SameOutside(old(a[..]), a[..], p, k)
    {
      a[p + col] := if col == row then ONE else ZERO;
    }
  }

  /** fec_new's matrix: the identity above, the lower Vandermonde rows times the inverse top below. */
  method BuildGenerator(gf: Tables, k: nat, n: nat) returns (gen: array<Gf>)
    requires gf.Ready() && 1 <= k <= n <= 256
    ensures fresh(gen) && gen.Length == Start(n, k) && Block(gen[..], 0, n, k) == Generator(k, n)
  {
    hide Tables.Ready, Start, Block, Powers, Point, VandermondeInverse, GeneratorRow;
    StartIs(n, k);
    StartIs(k, k);
    gen := new Gf[n * k](_ => ZERO);
    var tmp := new Gf[n * k](_ => ZERO);
    FillVandermonde(gf, tmp, k, n);
    ghost var v := Vandermonde(FirstPoints(n), k);
    ghost var before := tmp[..];
    LowerBlock(before, k, n, k);
    InvertTop(gf, tmp, k, n);
    SameRows(before, tmp[..], Start(k, k), n - k, k);
    MatrixMul(gf, tmp, k * k, tmp, 0, gen, k * k, n - k, k, k);
    ghost var product := gen[..];
    LowerBlock(product, k, n, k);
    FillIdentity(gen, k, n);
    forall i | 0 <= i < n ensures Block(gen[..], 0, n, k)[i] == GeneratorRow(k, i) {
      if i < k {
        TopIsIdentity(k, i);
      } else {
        LowerRow(k, n, i);
        assert Block(product, Start(k, k), n - k, k)[i - k] == RowTimes(v[i], VandermondeInverse(FirstPoints(k)), k);
      }
    }
    assert Block(gen[..], 0, n, k) == Generator(k, n);
  }

  lemma LowerRow(k: nat, n: nat, i: nat)
    requires i < n
    ensures RowTimes(Vandermonde(FirstPoints(n), k)[i], VandermondeInverse(FirstPoints(k)), k) == GeneratorRow(k, i)
  {
  }

  // ---------- the codec ----------

  /** The source packets, as the rows of a matrix. */
  ghost function Packets(src: seq<array<Gf>>, len: nat): (m: Matrix)
    requires forall i :: 0 <= i < |src| ==> len <= src[i].Length
    reads src
    ensures IsMatrix(m, |src|, len)
  {
    seq(|src|, i requires 0 <= i < |src| reads src => src[i][..len])
  }

  /** bzero. */
  method ZeroRange(a: array<Gf>, p: nat, n: nat)
    requires p + n <= a.Length
    modifies a
    ensures a[p..p + n] == Zeros(n)
    ensures SameOutside(old(a[..]), a[..], p, n)
  {
    for i := 0 to n
      invariant a[p..p + i] == Zeros(n)[..i]
      invariant SameOutside(old(a[..]), a[..], p, n)
    {
      a[p + i] := ZERO;
    }
  }

  /** memcpy of n elements from b + q to a + p. */
  method CopyRange(a: array<Gf>, p: nat, b: array<Gf>, q: nat, n: nat)
    requires p + n <= a.Length && q + n <= b.Length && a != b
    modifies a
    ensures a[p..p + n] == b[q..q + n]
    ensures SameOutside(old(a[..]), a[..], p, n)
  {
    for i := 0 to n
      invariant a[p..p + i] == b[q..q + i]
      invariant SameOutside(old(a[..]), a[..], p, n)
    {
      a[p + i] := b[q + i];
    }
  }

  /** Adding the next packet, scaled by the next coefficient. */
  lemma CombineStep(g: Vec, m: Matrix, len: nat, i: nat)
    requires IsMatrix(m, |g|, len) && i < |g|
    ensures RowTimes(g[..i + 1], m[..i + 1], len) == AddMul(RowTimes(g[..i], m[..i], len), g[i], m[i])
  {
    forall p | 0 <= p < len
      ensures RowTimes(g[..i + 1], m[..i + 1], len)[p] == Add(RowTimes(g[..i], m[..i], len)[p], Mul(g[i], m[i][p]))
    {
      DotExtend(g, Column(m, p), i);
      assert Column(m[..i + 1], p) == Column(m, p)[..i + 1];
      assert Column(m[..i], p) == Column(m, p)[..i];
    }
  }

  lemma CombineNone(g: Vec, m: Matrix, len: nat)
    requires IsMatrix(m, |g|, len)
    ensures RowTimes(g[..0], m[..0], len) == Zeros(len)
  {
    forall p | 0 <= p < len ensures RowTimes(g[..0], m[..0], len)[p] == ZERO {
    }
  }

  // ---------- what decoding means ----------

  ghost predicate AllBelow(s: seq<nat>, n: nat) {
    forall i :: 0 <= i < |s| ==> s[i] < n
  }

  lemma SamePacketsBelow(s: seq<nat>, t: seq<nat>, n: nat)
    requires multiset(s) == multiset(t) && AllBelow(s, n)
    ensures AllBelow(t, n)
  {
    forall i | 0 <= i < |t| ensures t[i] < n {
      assert t[i] in multiset(t);
      assert t[i] in s;
    }
  }

  lemma RepeatBelow(s: seq<nat>, k: nat)
    requires !OnceBelow(multiset(s), k)
    ensures !Distinct(s)
  {
    DistinctIsOnce(s);
  }

  /** Rows of the generator form an invertible matrix exactly when no packet is taken twice. */
  lemma InvertibleSelection(k: nat, order: seq<nat>)
    requires |order| == k <= 256 && AllBelow(order, 256)
    ensures Invertible(Selected(k, order), k) <==> Distinct(order)
  {
    hide IsInverseMatrix, Inverts, GeneratorRow;
    var s := Selected(k, order);
    if Distinct(order) {
      SelectionInvertible(k, order);
    }
    if Invertible(s, k) {
      var d :| IsInverseMatrix(s, d, k);
      InvertsIsInverse(s, d, k);
      forall i, j | 0 <= i < j < k ensures order[i] != order[j] {
        if order[i] == order[j] {
          InvertibleRowsDistinct(s, d, k, i, j);
        }
      }
    }
  }

  /** The contents of slots 0..n-1. */
  ghost function Slots(s: seq<Gf>, n: nat, len: nat): (m: Matrix)
    requires Start(n, len) <= |s|
    ensures IsMatrix(m, n, len)
  {
    Block(s, 0, n, len)
  }

  /** Encoding slots 0..k-1 reproduces every received slot, and the slots from k on are as before. */
  ghost predicate Recovered(k: nat, n: nat, before: seq<Gf>, after: seq<Gf>, idxs: seq<nat>, len: nat)
    requires k <= n
  {
    && Start(n, len) <= |before| == |after|
    && Start(k, len) <= |after|
    && (forall v :: v in idxs ==> v < n && Codeword(k, Slots(after, k, len), len, v) == Slots(before, n, len)[v])
    && (forall p :: Start(k, len) <= p < |after| ==> after[p] == before[p])
  }

  /** Every slot listed holds its packet of the code for this source. */
  ghost predicate HoldsCode(k: nat, n: nat, s: seq<Gf>, idxs: seq<nat>, source: Matrix, len: nat) {
    && Start(n, len) <= |s| && IsMatrix(source, k, len)
    && forall v :: v in idxs ==> v < n && Slots(s, n, len)[v] == Codeword(k, source, len, v)
  }

  lemma RecoveredAnyOrder(k: nat, n: nat, before: seq<Gf>, after: seq<Gf>, order: seq<nat>, idxs: seq<nat>, len: nat)
    requires k <= n && multiset(order) == multiset(idxs) && Recovered(k, n, before, after, order, len)
    ensures Recovered(k, n, before, after, idxs, len)
  {
    forall v | v in idxs ensures v in order {
      assert v in multiset(idxs);
    }
  }

  /** If the received slots held packets of the code, decoding restores their source. */
  lemma RecoveredIsSource(k: nat, n: nat, before: seq<Gf>, after: seq<Gf>, idxs: seq<nat>, source: Matrix, len: nat)
    requires k <= n <= 256 && |idxs| == k && Distinct(idxs)
    requires Recovered(k, n, before, after, idxs, len)
    requires HoldsCode(k, n, before, idxs, source, len)
    ensures Slots(after, k, len) == source
  {
    hide Codeword, Slots, Start;
    forall j | 0 <= j < k
      ensures idxs[j] < n && Codeword(k, source, len, idxs[j]) == Codeword(k, Slots(after, k, len), len, idxs[j])
    {
      assert idxs[j] in idxs;
    }
    AnyKDetermineSource(k, idxs, source, Slots(after, k, len), len);
  }

  /** The received packets in the order listed. */
  ghost function ReceivedRows(s: seq<Gf>, n: nat, order: seq<nat>, len: nat): (m: Matrix)
    requires Start(n, len) <= |s| && AllBelow(order, n)
    ensures IsMatrix(m, |order|, len)
  {
    var m := Slots(s, n, len);
    seq(|order|, c requires 0 <= c < |order| => m[order[c]])
  }

  /** Missing source packets rebuilt up to row; everything else as before. */
  ghost predicate Rebuilt(k: nat, n: nat, before: seq<Gf>, after: seq<Gf>, order: seq<nat>, d: Matrix, len: nat,
                          row: nat)
    requires |order| == k <= n && AllBelow(order, n) && IsMatrix(d, k, k)
  {
    && Start(n, len) <= |before| == |after|
    && (forall r :: 0 <= r < n ==>
          Slots(after, n, len)[r] == if r < row && r < k && order[r] >= k
                                     then RowTimes(d[r], ReceivedRows(before, n, order, len), len)
                                     else Slots(before, n, len)[r])
    && (forall p :: Start(n, len) <= p < |after| ==> after[p] == before[p])
  }

  /** A slot that is read is never one that has been rewritten. */
  lemma ReadsAreFresh(k: nat, n: nat, before: seq<Gf>, after: seq<Gf>, order: seq<nat>, d: Matrix, len: nat, row: nat)
    requires |order| == k <= n && AllBelow(order, n) && IsMatrix(d, k, k) && Placed(order, k) && row <= k
    requires Rebuilt(k, n, before, after, order, d, len, row)
    ensures ReceivedRows(after, n, order, len) == ReceivedRows(before, n, order, len)
  {
    hide Start, Slots, RowTimes;
    forall c | 0 <= c < k ensures Slots(after, n, len)[order[c]] == Slots(before, n, len)[order[c]] {
    }
  }

  lemma DecodedColumn(k: nat, order: seq<nat>, d: Matrix, y: Matrix, len: nat, p: nat)
    requires |order| == k && IsMatrix(d, k, k) && IsMatrix(y, k, len) && p < len
    requires Inverts(Selected(k, order), d, k)
    ensures Apply(Selected(k, order), Column(MatMul(d, y, k, k, len), p)) == Column(y, p)
  {
    hide GeneratorRow;
    var x := Column(MatMul(d, y, k, k, len), p);
    assert x == Apply(d, Column(y, p));
    assert Solves(d, Column(y, p), x);
    assert Solves(Selected(k, order), x, Column(y, p));
  }

  /** Encoding d y at the packets received gives y back. */
  lemma DecodedEncodes(k: nat, order: seq<nat>, d: Matrix, y: Matrix, len: nat, c: nat)
    requires |order| == k && IsMatrix(d, k, k) && IsMatrix(y, k, len) && c < k
    requires Inverts(Selected(k, order), d, k)
    ensures Codeword(k, MatMul(d, y, k, k, len), len, order[c]) == y[c]
  {
    hide GeneratorRow, Inverts;
    var x := MatMul(d, y, k, k, len);
    forall p | 0 <= p < len ensures Codeword(k, x, len, order[c])[p] == y[c][p] {
      DecodedColumn(k, order, d, y, len, p);
      assert Apply(Selected(k, order), Column(x, p))[c] == Column(y, p)[c];
    }
  }

  /** Slots 0..k-1 end up as the decoding matrix times the received packets, rewritten or not. */
  lemma RebuiltIsProduct(k: nat, n: nat, before: seq<Gf>, after: seq<Gf>, order: seq<nat>, d: Matrix, len: nat)
    requires |order| == k <= n && k <= 256 && AllBelow(order, n) && Placed(order, k)
    requires IsMatrix(d, k, k) && Inverts(Selected(k, order), d, k)
    requires Rebuilt(k, n, before, after, order, d, len, k)
    ensures Start(k, len) <= |after|
    ensures Slots(after, k, len) == MatMul(d, ReceivedRows(before, n, order, len), k, k, len)
  {
    hide Start, Block, RowTimes, GeneratorRow, Inverts;
    UpperBlock(after, k, n, len);
    var y := ReceivedRows(before, n, order, len);
    var x := MatMul(d, y, k, k, len);
    forall r | 0 <= r < k ensures Slots(after, k, len)[r] == x[r] {
      if order[r] < k {
        DecodedEncodes(k, order, d, y, len, r);
        SystematicCodeword(k, x, len, r);
      }
    }
  }

  lemma RebuiltIsRecovered(k: nat, n: nat, before: seq<Gf>, after: seq<Gf>, order: seq<nat>, d: Matrix, len: nat)
    requires |order| == k <= n && k <= 256 && AllBelow(order, n) && Placed(order, k)
    requires IsMatrix(d, k, k) && Inverts(Selected(k, order), d, k)
    requires Rebuilt(k, n, before, after, order, d, len, k)
    ensures Recovered(k, n, before, after, order, len)
  {
    hide Start, Block, GeneratorRow, Inverts, Codeword, Placed;
    RebuiltIsProduct(k, n, before, after, order, d, len);
    var y := ReceivedRows(before, n, order, len);
    forall v | v in order
      ensures v < n && Codeword(k, Slots(after, k, len), len, v) == Slots(before, n, len)[v]
    {
      var c :| 0 <= c < k && order[c] == v;
      DecodedEncodes(k, order, d, y, len, c);
    }
    forall p | Start(k, len) <= p < |after| ensures after[p] == before[p] {
      if p < Start(n, len) {
        UntouchedAbove(k, n, before, after, order, d, len, p);
      }
    }
  }

  /** The slots from k on are never written. */
  lemma UntouchedAbove(k: nat, n: nat, before: seq<Gf>, after: seq<Gf>, order: seq<nat>, d: Matrix, len: nat, p: nat)
    requires |order| == k <= n && AllBelow(order, n) && IsMatrix(d, k, k)
    requires Rebuilt(k, n, before, after, order, d, len, k)
    requires Start(k, len) <= p < Start(n, len)
    ensures after[p] == before[p]
  {
    var r := RowOf(k, n, len, p);
    BlockRow(after, 0, n, len, r);
    BlockRow(before, 0, n, len, r);
    assert Slots(after, n, len)[r] == Slots(before, n, len)[r];
    assert Slots(after, n, len)[r][p - Start(r, len)] == after[p];
  }

  lemma {:induction false} RowOf(k: nat, n: nat, len: nat, p: nat) returns (r: nat)
    requires k <= n && Start(k, len) <= p < Start(n, len)
    ensures k <= r < n && Start(r, len) <= p < Start(r, len) + len
    decreases n
  {
    if p < Start(n - 1, len) {
      r := RowOf(k, n - 1, len, p);
    } else {
      r := n - 1;
    }
  }

  /** Clears one slot. */
  method ClearSlot(pkts: array<Gf>, ghost n: nat, len: nat, row: nat)
    requires row < n && Start(n, len) <= pkts.Length
    modifies pkts
    ensures Slots(pkts[..], n, len) == old(Slots(pkts[..], n, len))[row := Zeros(len)]
    ensures forall p :: Start(n, len) <= p < pkts.Length ==> pkts[p] == old(pkts[p])
  {
    hide Start, Block;
    ghost var before := pkts[..];
    StartIs(row, len);
    BlockRow(before, 0, n, len, row);
    ZeroRange(pkts, row * len, len);
    SetRow(before, pkts[..], n, len, row);
  }

  /** Adds c times another slot to slot row. */
  method AddSlot(gf: Tables, pkts: array<Gf>, ghost n: nat, len: nat, row: nat, other: nat, c: Gf)
    requires gf.Ready() && row < n && other < n && row != other && Start(n, len) <= pkts.Length
    modifies pkts
    ensures Slots(pkts[..], n, len) ==
      var slots := old(Slots(pkts[..], n, len));
      slots[row := AddMul(slots[row], c, slots[other])]
    ensures forall p :: Start(n, len) <= p < pkts.Length ==> pkts[p] == old(pkts[p])
  {
    hide Tables.Ready, Start, Block, AddMul;
    ghost var before := pkts[..];
    StartIs(row, len);
    StartIs(other, len);
    BlockRow(before, 0, n, len, row);
    BlockRow(before, 0, n, len, other);
    RowsApart(other, row, len);
    GfAddMul(gf, pkts, row * len, pkts, other * len, c, len);
    SetRow(before, pkts[..], n, len, row);
  }

  /** Rebuilds slot row as a combination of the received slots, none of which is that slot. */
  method RebuildRow(gf: Tables, pkts: array<Gf>, idxs: array<nat>, decMatrix: array<Gf>, k: nat, ghost n: nat,
                    len: nat, row: nat)
    requires gf.Ready() && decMatrix != pkts && decMatrix.Length == Start(k, k)
    requires idxs.Length == k && row < k <= n && AllBelow(idxs[..], n) && Start(n, len) <= pkts.Length
    requires forall c :: 0 <= c < k ==> idxs[c] != row
    modifies pkts
    ensures Slots(pkts[..], n, len) == old(Slots(pkts[..], n, len))[row :=
      RowTimes(Square(decMatrix[..], k)[row], ReceivedRows(old(pkts[..]), n, idxs[..], len), len)]
    ensures forall p :: Start(n, len) <= p < pkts.Length ==> pkts[p] == old(pkts[p])
  {
    hide Tables.Ready, Start, Block, RowTimes, Slots, AddMul;
    ghost var m := Slots(pkts[..], n, len);
    ghost var y := ReceivedRows(pkts[..], n, idxs[..], len);
    ghost var d := Square(decMatrix[..], k)[row];
    ClearSlot(pkts, n, len, row);
    CombineNone(d, y, len);
    for col := 0 to k
      invariant Slots(pkts[..], n, len) == m[row := RowTimes(d[..col], y[..col], len)]
      invariant forall p :: Start(n, len) <= p < pkts.Length ==> pkts[p] == old(pkts[p])
    {
      assert idxs[..][col] == idxs[col];
      Entry(decMatrix[..], k, row, col);
      AddSlot(gf, pkts, n, len, row, idxs[col], decMatrix[row * k + col]);
      CombineStep(d, y, len, col);
    }
    assert d[..k] == d && y[..k] == y;
  }

  /** The reconstruction loop: rebuilds every slot below k whose packet did not arrive. */
  method RebuildMissing(gf: Tables, pkts: array<Gf>, idxs: array<nat>, decMatrix: array<Gf>, k: nat, ghost n: nat,
                        len: nat)
    requires gf.Ready() && decMatrix != pkts && decMatrix.Length == Start(k, k)
    requires idxs.Length == k <= n && AllBelow(idxs[..], n) && Start(n, len) <= pkts.Length
    requires Placed(idxs[..], k)
    modifies pkts
    ensures Rebuilt(k, n, old(pkts[..]), pkts[..], idxs[..], Square(decMatrix[..], k), len, k)
  {
    hide Tables.Ready, Start, Block, RowTimes, Slots;
    ghost var before, order, d := pkts[..], idxs[..], Square(decMatrix[..], k);
    for row := 0 to k
      invariant Rebuilt(k, n, before, pkts[..], order, d, len, row)
    {
      if idxs[row] >= k {
        ReadsAreFresh(k, n, before, pkts[..], order, d, len, row);
        assert order[row] == idxs[row];
        RebuildRow(gf, pkts, idxs, decMatrix, k, n, len, row);
      }
    }
  }

  /** The encoding loop: the sum of all source packets, each times its coefficient at gen + p. */
  method CombinePackets(gf: Tables, gen: array<Gf>, p: nat, src: seq<array<Gf>>, dst: array<Gf>, off: nat, k: nat,
                        len: nat)
    requires gf.Ready() && |src| == k && p + k <= gen.Length && off + len <= dst.Length
    requires dst !in src && dst != gen && forall i :: 0 <= i < k ==> len <= src[i].Length
    modifies dst
    ensures dst[off..off + len] == RowTimes(gen[p..p + k], Packets(src, len), len)
    ensures SameOutside(old(dst[..]), dst[..], off, len)
  {
    hide Tables.Ready, RowTimes;
    ghost var g, m := gen[p..p + k], Packets(src, len);
    ZeroRange(dst, off, len);
    CombineNone(g, m, len);
    for i := 0 to k
      invariant dst[off..off + len] == RowTimes(g[..i], m[..i], len)
      invariant SameOutside(old(dst[..]), dst[..], off, len)
      invariant Packets(src, len) == m
    {
      assert gen[p + i] == g[i];
      assert src[i][0..len] == m[i];
      GfAddMul(gf, dst, off, src[i], 0, gen[p + i], len);
      CombineStep(g, m, len, i);
    }
    assert g[..k] == g && m[..k] == m;
  }

  /** FEC parameters with their generator matrix. */
  class Fec {
    const k: nat
    const n: nat
    const genMatrix: array<Gf>

    ghost predicate Valid()
      reads genMatrix
    {
      && 1 <= k <= n <= 256
      && genMatrix.Length == Start(n, k)
      && Block(genMatrix[..], 0, n, k) == Generator(k, n)
    }

    /** fec_new. */
    constructor (gf: Tables, k: nat, n: nat)
      requires gf.Ready() && 1 <= k <= n <= 256
      ensures Valid() && this.k == k && this.n == n && fresh(genMatrix)
    {
      var gen := BuildGenerator(gf, k, n);
      this.k := k;
      this.n := n;
      this.genMatrix := gen;
    }

    /** fec_encode: writes packet idx of the code to the len places at dst + off. */
    method Encode(gf: Tables, src: seq<array<Gf>>, dst: array<Gf>, off: nat, idx: nat, len: nat)
      requires gf.Ready() && Valid() && idx < n && |src| == k && off + len <= dst.Length
      requires dst !in src && dst != genMatrix && forall i :: 0 <= i < k ==> len <= src[i].Length
      modifies dst
      ensures dst[off..off + len] == Codeword(k, Packets(src, len), len, idx)
      ensures SameOutside(old(dst[..]), dst[..], off, len)
    {
      hide Tables.Ready, Start, Block, GeneratorRow;
      ghost var m := Packets(src, len);
      BlockRow(genMatrix[..], 0, n, k, idx);
      if idx < k {
        SystematicCodeword(k, m, len, idx);
        CopyRange(dst, off, src[idx], 0, len);
      } else {
        StartIs(idx, k);
        CombinePackets(gf, genMatrix, idx * k, src, dst, off, k, len);
      }
    }

    /** memcpy of generator row idx into row i, which begins at p. */
    method CopyRow(matrix: array<Gf>, p: nat, ghost i: nat, idx: nat)
      requires Valid() && matrix != genMatrix && matrix.Length == Start(k, k)
      requires i < k && idx < n && p == Start(i, k)
      modifies matrix
      ensures Block(matrix[..], 0, k, k) == old(Block(matrix[..], 0, k, k))[i := GeneratorRow(k, idx)]
    {
      hide Start, Block, GeneratorRow;
      StartIs(idx, k);
      BlockRow(genMatrix[..], 0, n, k, idx);
      BlockRow(matrix[..], 0, k, k, i);
      ghost var before := matrix[..];
      CopyRange(matrix, p, genMatrix, idx * k, k);
      SetRow(before, matrix[..], k, k, i);
    }

    /** fec_decode_matrix: the inverse of the generator rows of the received packets. */
    method DecodeMatrix(gf: Tables, matrix: array<Gf>, idxs: array<nat>) returns (ok: bool)
      requires gf.Ready() && Valid() && matrix != genMatrix && matrix.Length == Start(k, k)
      requires idxs.Length == k && forall i :: 0 <= i < k ==> idxs[i] < n
      modifies matrix
      ensures ok <==> Distinct(idxs[..])
      ensures ok ==> Inverts(Selected(k, idxs[..]), Square(matrix[..], k), k)
    {
      hide Tables.Ready, Start, Block, GeneratorRow, Inverts, Distinct, Invertible, IsInverseMatrix;
      ghost var s := Selected(k, idxs[..]);
      var p := 0;
      StartNext(0, k);
      for i := 0 to k
        invariant p == Start(i, k)
        invariant forall j :: 0 <= j < i ==> Block(matrix[..], 0, k, k)[j] == s[j]
      {
        StartNext(i, k);
        CopyRow(matrix, p, i, idxs[i]);
        p := p + k;
      }
      assert Square(matrix[..], k) == s;
      ok := MatrixInv(gf, matrix, k);
      InvertibleSelection(k, idxs[..]);
      InvertsIsInverse(s, Square(matrix[..], k), k);
    }

    /** fec_decode: fails exactly when a packet is listed twice, and then leaves the packets alone.
        Otherwise slots 0..k-1 become the packets whose encoding agrees with all k received slots. */
    method Decode(gf: Tables, pkts: array<Gf>, idxs: array<nat>, len: nat) returns (ok: bool)
      requires gf.Ready() && Valid() && pkts != genMatrix && Start(n, len) <= pkts.Length
      requires idxs.Length == k && forall i :: 0 <= i < k ==> idxs[i] < n
      modifies pkts, idxs
      ensures multiset(idxs[..]) == multiset(old(idxs[..]))
      ensures ok <==> Distinct(old(idxs[..]))
      ensures !ok ==> pkts[..] == old(pkts[..])
      ensures ok ==> Recovered(k, n, old(pkts[..]), pkts[..], old(idxs[..]), len)
      ensures forall source: Matrix | ok && HoldsCode(k, n, old(pkts[..]), old(idxs[..]), source, len) ::
        Slots(pkts[..], k, len) == source
    {
      hide HoldsCode, Slots, Tables.Ready, Start, Block, GeneratorRow, Inverts, Singular, Recovered, Distinct, Placed;
      ghost var received := idxs[..];
      DistinctIsOnce(received);
      ok := FecShuffle(k, idxs);
      if !ok {
        RepeatBelow(received, k);
        return false;
      }
      assert AllBelow(idxs[..], n) by { SamePacketsBelow(received, idxs[..], n); }
      StartIs(k, k);
      var decMatrix := new Gf[k * k](_ => ZERO);
      ok := DecodeMatrix(gf, decMatrix, idxs);
      ghost var order := idxs[..];
      SamePacketsDistinct(received, order);
      if !ok {
        return false;
      }
      ghost var d := Square(decMatrix[..], k);
      ghost var before := pkts[..];
      RebuildMissing(gf, pkts, idxs, decMatrix, k, n, len);
      RebuiltIsRecovered(k, n, before, pkts[..], order, d, len);
      RecoveredAnyOrder(k, n, before, pkts[..], order, received, len);
      forall source: Matrix | HoldsCode(k, n, before, received, source, len) ensures Slots(pkts[..], k, len) == source {
        RecoveredIsSource(k, n, before, pkts[..], received, source, len);
      }
      return true;
    }
  }

  /** Encodes only the packets listed, into their slots, and decodes: the source comes back for any k
      different packets out of n, whatever the other slots hold. */
  method EncodeAndDecode(gf: Tables, k: nat, n: nat, src: seq<array<Gf>>, idxs: array<nat>, pkts: array<Gf>, len: nat)
    returns (ok: bool)
    requires gf.Ready() && 1 <= k <= n <= 256 && |src| == k && pkts !in src
    requires forall i :: 0 <= i < k ==> len <= src[i].Length
    requires idxs.Length == k && AllBelow(idxs[..], n) && Start(n, len) <= pkts.Length
    modifies pkts, idxs
    ensures ok <==> Distinct(old(idxs[..]))
    ensures ok ==> Start(k, len) <= pkts.Length && Slots(pkts[..], k, len) == old(Packets(src, len))
  {
    hide Tables.Ready, Start, Block, Slots, Codeword, Distinct;
    ghost var source, listed := Packets(src, len), idxs[..];
    var fec := new Fec(gf, k, n);
    for j := 0 to k
      invariant fec.Valid() && idxs[..] == listed && Packets(src, len) == source
      invariant forall v :: v in listed[..j] ==> v < n && Slots(pkts[..], n, len)[v] == Codeword(k, source, len, v)
    {
      EncodeSlot(gf, fec, src, pkts, n, idxs[j], len);
      assert listed[..j + 1] == listed[..j] + [idxs[j]];
    }
    assert listed[..k] == listed;
    assert HoldsCode(k, n, pkts[..], listed, source, len);
    ok := fec.Decode(gf, pkts, idxs, len);
  }

  /** Encodes packet idx into its slot. */
  method EncodeSlot(gf: Tables, fec: Fec, src: seq<array<Gf>>, pkts: array<Gf>, n: nat, idx: nat, len: nat)
    requires gf.Ready() && fec.Valid() && fec.n == n && idx < n && |src| == fec.k && Start(n, len) <= pkts.Length
    requires pkts !in src && pkts != fec.genMatrix && forall i :: 0 <= i < |src| ==> len <= src[i].Length
    modifies pkts
    ensures Slots(pkts[..], n, len) == old(Slots(pkts[..], n, len))[idx := Codeword(fec.k, Packets(src, len), len, idx)]
  {
    hide Tables.Ready, Start, Block, Codeword;
    ghost var before := pkts[..];
    StartIs(idx, len);
    BlockRow(before, 0, n, len, idx);
    fec.Encode(gf, src, pkts, idx * len, idx, len);
    SetRow(before, pkts[..], n, len, idx);
  }
}
