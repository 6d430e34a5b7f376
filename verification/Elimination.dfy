/** Why Gauss-Jordan elimination in place works (rtp/fec/fec_matrix.c, matrix_inv).

    After some columns have been used as pivots, the matrix in the array is a mixture of the input
    and of its inverse: it sends (right-hand side on pivoted indices, unknown elsewhere) to
    (unknown on pivoted indices, right-hand side elsewhere). */
module Elimination {
  import opened Gf256
  import opened LinearAlgebra

  type Swaps = seq<(nat, nat)>

  ghost predicate SwapsBelow(swaps: Swaps, k: nat) {
    forall i :: 0 <= i < |swaps| ==> swaps[i].0 < k && swaps[i].1 < k
  }

  /** The row swaps done so far, applied to a right-hand side. */
  ghost function Permute(swaps: Swaps, y: Vec): (z: Vec)
    requires SwapsBelow(swaps, |y|)
    ensures |z| == |y|
  {
    if swaps == [] then y
    else
      var n := |swaps| - 1;
      Swap(Permute(swaps[..n], y), swaps[n].0, swaps[n].1)
  }

  ghost function Mix(pivoted: seq<bool>, u: Vec, v: Vec): (r: Vec)
    requires |pivoted| == |u| == |v|
    ensures |r| == |u| && forall i :: 0 <= i < |u| ==> r[i] == if pivoted[i] then u[i] else v[i]
  {
    seq(|u|, i requires 0 <= i < |u| => if pivoted[i] then u[i] else v[i])
  }

  /** Solving for a0 is the same as solving for a with pivoted coordinates exchanged. */
  ghost predicate Exchanged(a0: Matrix, a: Matrix, k: nat, pivoted: seq<bool>, swaps: Swaps) {
    && IsMatrix(a0, k, k) && IsMatrix(a, k, k) && |pivoted| == k && SwapsBelow(swaps, k)
    && forall x: Vec, y: Vec {:trigger Solves(a0, x, y)} | |x| == |y| == k ::
         Solves(a0, x, y) <==>
         Solves(a, Mix(pivoted, Permute(swaps, y), x), Mix(pivoted, x, Permute(swaps, y)))
  }

  lemma ExchangedInitially(a: Matrix, k: nat)
    requires IsMatrix(a, k, k)
    ensures Exchanged(a, a, k, seq(k, _ => false), [])
  {
    var none := seq(k, _ => false);
    forall x: Vec, y: Vec | |x| == |y| == k
      ensures Mix(none, Permute([], y), x) == x && Mix(none, x, Permute([], y)) == y
    {
    }
  }

  // ---------- swapping two rows ----------

  lemma SolvesSwapRows(a: Matrix, u: Vec, v: Vec, k: nat, r: nat, c: nat)
    requires IsMatrix(a, k, k) && |u| == |v| == k && r < k && c < k
    ensures Solves(a, u, v) <==> Solves(Swap(a, r, c), u, Swap(v, r, c))
  {
    var b := Swap(a, r, c);
    assert IsMatrix(b, k, k);
    assert Apply(b, u) == Swap(Apply(a, u), r, c);
    if Solves(b, u, Swap(v, r, c)) {
      assert Swap(Swap(Apply(a, u), r, c), r, c) == Apply(a, u);
      assert Swap(Swap(v, r, c), r, c) == v;
    }
  }

  lemma ExchangedSwap(a0: Matrix, a: Matrix, k: nat, pivoted: seq<bool>, swaps: Swaps, r: nat, c: nat)
    requires Exchanged(a0, a, k, pivoted, swaps)
    requires r < k && c < k && !pivoted[r] && !pivoted[c]
    ensures Exchanged(a0, Swap(a, r, c), k, pivoted, swaps + [(r, c)])
  {
    var swaps' := swaps + [(r, c)];
    assert swaps'[..|swaps|] == swaps;
    forall x: Vec, y: Vec | |x| == |y| == k
      ensures Solves(a0, x, y) <==>
              Solves(Swap(a, r, c), Mix(pivoted, Permute(swaps', y), x), Mix(pivoted, x, Permute(swaps', y)))
    {
      var z := Permute(swaps, y);
      var u, v := Mix(pivoted, z, x), Mix(pivoted, x, z);
      assert Permute(swaps', y) == Swap(z, r, c);
      assert Mix(pivoted, Swap(z, r, c), x) == u;
      assert Mix(pivoted, x, Swap(z, r, c)) == Swap(v, r, c);
      SolvesSwapRows(a, u, v, k, r, c);
    }
  }

  // ---------- pivoting ----------

  /** The pivot row divided by its pivot element, with the pivot column holding the factor. */
  ghost function PivotRow(row: Vec, c: nat): (r: Vec)
    requires c < |row|
    ensures |r| == |row|
  {
    Scale(Inv(row[c]), row[c := ONE])
  }

  /** Another row, with its entry in the pivot column used to subtract the pivot row q. */
  ghost function ReducedRow(row: Vec, q: Vec, c: nat): (r: Vec)
    requires |row| == |q| && c < |row|
    ensures |r| == |row|
  {
    Sum(row[c := ZERO], Scale(row[c], q))
  }

  ghost function Pivoted(a: Matrix, k: nat, c: nat): (b: Matrix)
    requires IsMatrix(a, k, k) && c < k
    ensures IsMatrix(b, k, k)
  {
    var q := PivotRow(a[c], c);
    seq(k, i requires 0 <= i < k => if i == c then q else ReducedRow(a[i], q, c))
  }

  /** The pivot equation, solved for the pivot unknown. */
  lemma PivotRowExchange(row: Vec, u: Vec, c: nat, w: Gf)
    requires |row| == |u| && c < |row| && row[c] != ZERO
    ensures Dot(row, u) == w <==> Dot(PivotRow(row, c), u[c := w]) == u[c]
  {
    var d := row[c];
    var s := Dot(row[c := ZERO], u);
    DotReplace(row, u, c, d, u[c]);
    assert row[c := d] == row && u[c := u[c]] == u;
    DotReplace(row, u, c, ONE, w);
    DotScale(Inv(d), row[c := ONE], u[c := w]);
    MulOne(w);
    ScaledEquation(s, d, u[c], w);
  }

  /** s + d x = w exactly when (s + w) / d = x. */
  lemma ScaledEquation(s: Gf, d: Gf, x: Gf, w: Gf)
    requires d != ZERO
    ensures Add(s, Mul(d, x)) == w <==> Mul(Inv(d), Add(s, w)) == x
  {
    InvNonZero(d);
    if Add(s, Mul(d, x)) == w {
      AddAssoc(s, s, Mul(d, x));
      AddSelf(s);
      AddZero(Mul(d, x));
      MulAssoc(Inv(d), d, x);
      MulOne(x);
    }
    if Mul(Inv(d), Add(s, w)) == x {
      MulAssoc(d, Inv(d), Add(s, w));
      MulOne(Add(s, w));
      AddAssoc(s, s, w);
      AddSelf(s);
      AddZero(w);
    }
  }

  lemma ReducedRowExchange(row: Vec, q: Vec, u: Vec, c: nat, w: Gf)
    requires |row| == |q| == |u| && c < |row|
    requires Dot(q, u[c := w]) == u[c]
    ensures Dot(ReducedRow(row, q, c), u[c := w]) == Dot(row, u)
  {
    DotSum(row[c := ZERO], Scale(row[c], q), u[c := w]);
    DotScale(row[c], q, u[c := w]);
    DotReplace(row, u, c, ZERO, w);
    MulZero(w);
    AddZero(Dot(row[c := ZERO], u));
    DotReplace(row, u, c, row[c], u[c]);
    assert row[c := row[c]] == row && u[c := u[c]] == u;
  }

  lemma SolvesPivot(a: Matrix, u: Vec, v: Vec, k: nat, c: nat)
    requires IsMatrix(a, k, k) && |u| == |v| == k && c < k && a[c][c] != ZERO
    ensures Solves(a, u, v) <==> Solves(Pivoted(a, k, c), u[c := v[c]], v[c := u[c]])
  {
    var b, w := Pivoted(a, k, c), v[c];
    var u', v' := u[c := w], v[c := u[c]];
    PivotRowExchange(a[c], u, c, w);
    if Dot(a[c], u) == w {
      forall i | 0 <= i < k && i != c ensures Apply(b, u')[i] == Apply(a, u)[i] {
        ReducedRowExchange(a[i], b[c], u, c, w);
      }
      if Solves(a, u, v) {
        assert Apply(b, u') == v';
      }
      if Solves(b, u', v') {
        forall i | 0 <= i < k ensures Apply(a, u)[i] == v[i] {
          assert Apply(b, u')[i] == v'[i];
        }
        assert Apply(a, u) == v;
      }
    } else {
      assert Apply(a, u)[c] != v[c];
      assert Apply(b, u')[c] != v'[c];
    }
  }

  lemma ExchangedPivot(a0: Matrix, a: Matrix, k: nat, pivoted: seq<bool>, swaps: Swaps, c: nat)
    requires Exchanged(a0, a, k, pivoted, swaps)
    requires c < k && !pivoted[c] && a[c][c] != ZERO
    ensures Exchanged(a0, Pivoted(a, k, c), k, pivoted[c := true], swaps)
  {
    var pivoted' := pivoted[c := true];
    forall x: Vec, y: Vec | |x| == |y| == k
      ensures Solves(a0, x, y) <==>
              Solves(Pivoted(a, k, c), Mix(pivoted', Permute(swaps, y), x), Mix(pivoted', x, Permute(swaps, y)))
    {
      var z := Permute(swaps, y);
      var u, v := Mix(pivoted, z, x), Mix(pivoted, x, z);
      assert Mix(pivoted', z, x) == u[c := v[c]];
      assert Mix(pivoted', x, z) == v[c := u[c]];
      SolvesPivot(a, u, v, k, c);
    }
  }

  /** When the pivot row already is a row of the identity, the other rows need no reduction. */
  lemma IdentityRowShortcut(row: Vec, k: nat, c: nat)
    requires |row| == k && c < k
    ensures ReducedRow(row, Unit(k, c), c) == row
  {
    forall i | 0 <= i < k ensures ReducedRow(row, Unit(k, c), c)[i] == row[i] {
      MulZero(row[c]);
      MulOne(row[c]);
      AddZero(row[i]);
    }
  }

  // ---------- no pivot left ----------

  lemma {:induction false} PermuteZeros(swaps: Swaps, k: nat)
    requires SwapsBelow(swaps, k)
    ensures Permute(swaps, Zeros(k)) == Zeros(k)
  {
    if swaps != [] {
      PermuteZeros(swaps[..|swaps| - 1], k);
    }
  }

  /** If no unpivoted row has a non-zero entry in an unpivoted column, the input is singular. */
  lemma NoPivotIsSingular(a0: Matrix, a: Matrix, k: nat, pivoted: seq<bool>, swaps: Swaps, c: nat)
    requires Exchanged(a0, a, k, pivoted, swaps)
    requires c < k && !pivoted[c]
    requires forall i, j :: 0 <= i < k && 0 <= j < k && !pivoted[i] && !pivoted[j] ==> a[i][j] == ZERO
    ensures Singular(a0, k)
  {
    var zero := Zeros(k);
    var u := Unit(k, c);
    var v := Apply(a, u);
    var x := Mix(pivoted, v, u);
    PermuteZeros(swaps, k);
    forall i | 0 <= i < k && !pivoted[i] ensures v[i] == ZERO {
      DotUnit(a[i], c);
    }
    assert Mix(pivoted, zero, x) == u;
    assert Mix(pivoted, x, zero) == v;
    assert x[c] == ONE;
    assert Solves(a0, x, zero);
  }

  // ---------- undoing the row swaps on the columns ----------

  ghost function SwapColumns(a: Matrix, k: nat, r: nat, c: nat): (b: Matrix)
    requires IsMatrix(a, k, k) && r < k && c < k
    ensures IsMatrix(b, k, k) && forall i :: 0 <= i < k ==> b[i] == Swap(a[i], r, c)
  {
    seq(k, i requires 0 <= i < k => Swap(a[i], r, c))
  }

  /** a inverts a0 up to the row swaps still to be undone. */
  ghost predicate InvertsUpTo(a0: Matrix, a: Matrix, k: nat, swaps: Swaps) {
    && IsMatrix(a0, k, k) && IsMatrix(a, k, k) && SwapsBelow(swaps, k)
    && forall x: Vec, y: Vec {:trigger Solves(a0, x, y)} | |x| == |y| == k ::
         Solves(a0, x, y) <==> Solves(a, Permute(swaps, y), x)
  }

  lemma AllPivoted(a0: Matrix, a: Matrix, k: nat, pivoted: seq<bool>, swaps: Swaps)
    requires Exchanged(a0, a, k, pivoted, swaps)
    requires forall i :: 0 <= i < k ==> pivoted[i]
    ensures InvertsUpTo(a0, a, k, swaps)
  {
    forall x: Vec, y: Vec | |x| == |y| == k
      ensures Solves(a0, x, y) <==> Solves(a, Permute(swaps, y), x)
    {
      var z := Permute(swaps, y);
      assert Mix(pivoted, z, x) == z && Mix(pivoted, x, z) == x;
    }
  }

  lemma UndoSwap(a0: Matrix, a: Matrix, k: nat, swaps: Swaps, r: nat, c: nat)
    requires r < k && c < k && InvertsUpTo(a0, a, k, swaps + [(r, c)])
    ensures InvertsUpTo(a0, SwapColumns(a, k, r, c), k, swaps)
  {
    var swaps' := swaps + [(r, c)];
    assert swaps'[..|swaps|] == swaps && swaps'[|swaps|] == (r, c);
    assert forall i :: 0 <= i < |swaps| ==> swaps[i] == swaps'[i];
    var b := SwapColumns(a, k, r, c);
    forall x: Vec, y: Vec | |x| == |y| == k
      ensures Solves(a0, x, y) <==> Solves(b, Permute(swaps, y), x)
    {
      var z := Permute(swaps, y);
      assert Permute(swaps', y) == Swap(z, r, c);
      forall i | 0 <= i < k ensures Apply(b, z)[i] == Apply(a, Swap(z, r, c))[i] {
        DotSwap(a[i], Swap(z, r, c), r, c);
        assert Swap(Swap(z, r, c), r, c) == z;
      }
      assert Apply(b, z) == Apply(a, Swap(z, r, c));
    }
  }

  lemma NoSwapsLeft(a0: Matrix, a: Matrix, k: nat)
    requires InvertsUpTo(a0, a, k, [])
    ensures Inverts(a0, a, k)
  {
  }
}
