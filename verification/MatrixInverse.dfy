/** In-place Gauss-Jordan elimination with full pivoting (rtp/fec/fec_matrix.c, matrix_inv). */
module MatrixInverse {
  import opened Pigeonhole
  import opened Gf256
  import opened LinearAlgebra
  import opened GaloisTables
  import opened FlatMatrix
  import opened Elimination

  /** The square matrix held in an array. */
  ghost function Square(s: seq<Gf>, k: nat): (m: Matrix)
    requires |s| == Start(k, k)
    ensures IsMatrix(m, k, k)
  {
    Block(s, 0, k, k)
  }

  lemma Entry(s: seq<Gf>, k: nat, i: nat, j: nat)
    requires |s| == Start(k, k) && i < k && j < k
    ensures i * k + j < |s| && s[i * k + j] == Square(s, k)[i][j]
  {
    StartIs(i, k);
    BlockRow(s, 0, k, k, i);
  }

  /** The flags in ipiv, as truth values. */
  ghost predicate Flags(ipiv: seq<int>, pivoted: seq<bool>) {
    && |ipiv| == |pivoted|
    && forall i :: 0 <= i < |ipiv| ==> ipiv[i] == if pivoted[i] then 1 else 0
  }

  ghost predicate NoneLeft(m: Matrix, k: nat, pivoted: seq<bool>)
    requires IsMatrix(m, k, k) && |pivoted| == k
  {
    forall i, j :: 0 <= i < k && 0 <= j < k && !pivoted[i] && !pivoted[j] ==> m[i][j] == ZERO
  }

  /** Looks for a non-zero element outside the pivoted rows and columns, the diagonal first. */
  method FindPivot(a: array<Gf>, k: nat, ipiv: array<int>, col: nat, ghost pivoted: seq<bool>)
    returns (found: bool, irow: nat, icol: nat)
    requires a.Length == Start(k, k) && ipiv.Length == k && col < k && Flags(ipiv[..], pivoted)
    ensures found ==>
      irow < k && icol < k && !pivoted[irow] && !pivoted[icol] && Square(a[..], k)[irow][icol] != ZERO
    ensures !found ==> NoneLeft(Square(a[..], k), k, pivoted)
  {
    hide Square;
    ghost var m := Square(a[..], k);
    found := false;
    irow, icol := 0, 0;
    Entry(a[..], k, col, col);
    if ipiv[col] != 1 && a[col * k + col] != ZERO {
      return true, col, col;
    }
    for row := 0 to k
      invariant forall i, j :: 0 <= i < row && 0 <= j < k && !pivoted[i] && !pivoted[j] ==> m[i][j] == ZERO
    {
      if ipiv[row] != 1 {
        for i := 0 to k
          invariant forall j :: 0 <= j < i && !pivoted[j] ==> m[row][j] == ZERO
        {
          Entry(a[..], k, row, i);
          if ipiv[i] == 0 {
            if a[row * k + i] != ZERO {
              return true, row, i;
            }
          } else if ipiv[i] > 1 {
            assert false;
            return;
          }
        }
      }
    }
    return false, 0, 0;
  }

  /** Where the element at x comes from when the n places from p on and from q on change places. */
  ghost function Partner(x: int, p: nat, q: nat, n: nat): int {
    if p <= x < p + n then x - p + q else if q <= x < q + n then x - q + p else x
  }

  ghost predicate RangesSwapped(s: seq<Gf>, t: seq<Gf>, p: nat, q: nat, n: nat) {
    && |s| == |t| && p + n <= |s| && q + n <= |s|
    && forall x {:trigger t[x]} :: 0 <= x < |s| ==> t[x] == s[Partner(x, p, q, n)]
  }

  method SwapRanges(a: array<Gf>, p: nat, q: nat, n: nat)
    requires p + n <= a.Length && q + n <= a.Length && (p + n <= q || q + n <= p)
    modifies a
    ensures RangesSwapped(old(a[..]), a[..], p, q, n)
  {
    for i := 0 to n
      invariant forall x {:trigger a[x]} :: 0 <= x < a.Length ==> a[x] == old(a[..])[Partner(x, p, q, i)]
    {
      var tmp := a[p + i];
      a[p + i] := a[q + i];
      a[q + i] := tmp;
    }
  }

  /** Swaps rows irow and icol so that the pivot is on the diagonal. */
  method SwapRows(a: array<Gf>, k: nat, irow: nat, icol: nat)
    requires a.Length == Start(k, k) && irow < k && icol < k && irow != icol
    modifies a
    ensures Square(a[..], k) == Swap(old(Square(a[..], k)), irow, icol)
  {
    hide Start, Block, RangesSwapped;
    StartIs(irow, k);
    StartIs(icol, k);
    RowsApart(irow, icol, k);
    RowFits(irow, k, k);
    RowFits(icol, k, k);
    ghost var before := a[..];
    SwapRanges(a, irow * k, icol * k, k);
    SwappedRows(before, a[..], k, irow, icol);
  }

  lemma SwappedRows(s: seq<Gf>, t: seq<Gf>, k: nat, r: nat, c: nat)
    requires |s| == |t| == Start(k, k) && r < k && c < k && r != c
    requires RangesSwapped(s, t, Start(r, k), Start(c, k), k)
    ensures Square(t, k) == Swap(Square(s, k), r, c)
  {
    hide Start, Block, RangesSwapped;
    forall i | 0 <= i < k ensures Square(t, k)[i] == Swap(Square(s, k), r, c)[i] {
      SwappedRow(s, t, k, r, c, i);
    }
  }

  lemma SwappedRow(s: seq<Gf>, t: seq<Gf>, k: nat, r: nat, c: nat, i: nat)
    requires |s| == |t| == Start(k, k) && r < k && c < k && i < k && r != c
    requires RangesSwapped(s, t, Start(r, k), Start(c, k), k)
    ensures Square(t, k)[i] == Square(s, k)[if i == r then c else if i == c then r else i]
  {
    hide Start, Block, RangesSwapped;
    var from := if i == r then c else if i == c then r else i;
    BlockRow(s, 0, k, k, from);
    BlockRow(t, 0, k, k, i);
    RowsApart(r, c, k);
    if from == i {
      RowsApart(i, r, k);
      RowsApart(i, c, k);
    }
    SwappedSlice(s, t, Start(r, k), Start(c, k), Start(i, k), Start(from, k), k);
  }

  lemma SwappedSlice(s: seq<Gf>, t: seq<Gf>, p: nat, q: nat, x: nat, y: nat, k: nat)
    requires RangesSwapped(s, t, p, q, k)
    requires x + k <= |s| && y + k <= |s| && (p + k <= q || q + k <= p)
    requires (x == p && y == q) || (x == q && y == p) ||
             (x == y && (x + k <= p || p + k <= x) && (x + k <= q || q + k <= x))
    ensures t[x..x + k] == s[y..y + k]
  {
    var u, v := t[x..x + k], s[y..y + k];
    forall j | 0 <= j < k ensures u[j] == v[j] {
      assert t[x + j] == s[Partner(x + j, p, q, k)];
    }
  }

  /** Divides the pivot row by the pivot element, leaving the factor in the pivot column. */
  method DividePivotRow(gf: Tables, a: array<Gf>, k: nat, icol: nat)
    requires gf.Ready() && a.Length == Start(k, k) && icol < k
    requires Square(a[..], k)[icol][icol] != ZERO
    modifies a
    ensures Square(a[..], k) == old(Square(a[..], k))[icol := PivotRow(old(Square(a[..], k))[icol], icol)]
  {
    hide Tables.Ready, Tables.Times, Tables.Inverse;
    var p := icol * k;
    StartIs(icol, k);
    BlockRow(a[..], 0, k, k, icol);
    ghost var before := a[..];
    ghost var row := Square(a[..], k)[icol];
    assert row == a[p..p + k];
    var c := a[p + icol];
    assert c == row[icol];
    if c == ZERO {
      assert false;
    } else if c != ONE {
      c := gf.Inverse(c);
      a[p + icol] := ONE;
      assert a[p..p + k] == row[icol := ONE];
      ScaleRange(gf, a, p, k, c);
    } else {
      DividedByOne(row, icol);
    }
    assert a[p..p + k] == PivotRow(row, icol);
    SetRow(before, a[..], k, k, icol);
  }

  lemma DividedByOne(row: Vec, c: nat)
    requires c < |row| && row[c] == ONE
    ensures PivotRow(row, c) == row
  {
    InvOne();
    forall i | 0 <= i < |row| ensures PivotRow(row, c)[i] == row[i] {
      MulOne(row[i]);
    }
  }

  method ScaleRange(gf: Tables, a: array<Gf>, p: nat, k: nat, c: Gf)
    requires gf.Ready() && p + k <= a.Length
    modifies a
    ensures a[p..p + k] == Scale(c, old(a[p..p + k]))
    ensures SameOutside(old(a[..]), a[..], p, k)
  {
    hide Tables.Ready, Tables.Times;
    ghost var row := a[p..p + k];
    for i := 0 to k
      invariant a[p..p + i] == Scale(c, row)[..i]
      invariant a[p + i..p + k] == row[i..]
      invariant SameOutside(old(a[..]), a[..], p, k)
    {
      assert a[p + i] == row[i];
      a[p + i] := gf.Times(c, a[p + i]);
    }
  }

  /** What reduction does to the rows below n. */
  ghost function Reduced(m: Matrix, k: nat, c: nat, n: nat): (r: Matrix)
    requires IsMatrix(m, k, k) && c < k && n <= k
    ensures IsMatrix(r, k, k)
  {
    seq(k, i requires 0 <= i < k => if i < n && i != c then ReducedRow(m[i], m[c], c) else m[i])
  }

  /** Reduces every row but the pivot row, unless the pivot row is the identity row. */
  method ReduceRows(gf: Tables, a: array<Gf>, k: nat, icol: nat, idRow: array<Gf>)
    requires gf.Ready() && a.Length == Start(k, k) && icol < k
    requires idRow != a && idRow[..] == Unit(k, icol)
    modifies a
    ensures Square(a[..], k) == Reduced(old(Square(a[..], k)), k, icol, k)
  {
    hide Tables.Ready;
    var p := icol * k;
    StartIs(icol, k);
    BlockRow(a[..], 0, k, k, icol);
    ghost var m := Square(a[..], k);
    if a[p..p + k] != idRow[..] {
      for i := 0 to k
        invariant Square(a[..], k) == Reduced(m, k, icol, i)
      {
        if i != icol {
          ReduceRow(gf, a, k, icol, i);
        }
        assert Reduced(m, k, icol, i + 1) ==
          if i == icol then Reduced(m, k, icol, i) else Reduced(m, k, icol, i)[i := ReducedRow(m[i], m[icol], icol)];
      }
    } else {
      forall i | 0 <= i < k ensures m[i] == Reduced(m, k, icol, k)[i] {
        IdentityRowShortcut(m[i], k, icol);
      }
    }
  }

  method ReduceRow(gf: Tables, a: array<Gf>, k: nat, icol: nat, i: nat)
    requires gf.Ready() && a.Length == Start(k, k) && icol < k && i < k && i != icol
    modifies a
    ensures Square(a[..], k) ==
      old(Square(a[..], k))[i := ReducedRow(old(Square(a[..], k))[i], old(Square(a[..], k))[icol], icol)]
  {
    hide Tables.Ready, Start, Block, ReducedRow;
    StartIs(i, k);
    StartIs(icol, k);
    var p, q := i * k, icol * k;
    RowsApart(i, icol, k);
    BlockRow(a[..], 0, k, k, i);
    BlockRow(a[..], 0, k, k, icol);
    ghost var before := a[..];
    ReduceRange(gf, a, p, q, icol, k);
    SetRow(before, a[..], k, k, i);
  }

  /** Zeroes the entry c of the row at p and subtracts that multiple of the row at q. */
  method ReduceRange(gf: Tables, a: array<Gf>, p: nat, q: nat, c: nat, k: nat)
    requires gf.Ready() && c < k && p + k <= a.Length && q + k <= a.Length && (p + k <= q || q + k <= p)
    modifies a
    ensures a[p..p + k] == ReducedRow(old(a[p..p + k]), old(a[q..q + k]), c)
    ensures SameOutside(old(a[..]), a[..], p, k)
  {
    hide Tables.Ready;
    ghost var row, pivot := a[p..p + k], a[q..q + k];
    var f := a[p + c];
    a[p + c] := ZERO;
    assert a[p..p + k] == row[c := ZERO];
    assert a[q..q + k] == pivot;
    GfAddMul(gf, a, p, a, q, f, k);
  }

  /** One pivot step: divide the pivot row, then reduce the others against it. */
  method PivotStep(gf: Tables, a: array<Gf>, k: nat, icol: nat, idRow: array<Gf>)
    requires gf.Ready() && a.Length == Start(k, k) && icol < k
    requires idRow != a && idRow[..] == Zeros(k)
    requires Square(a[..], k)[icol][icol] != ZERO
    modifies a, idRow
    ensures Square(a[..], k) == Pivoted(old(Square(a[..], k)), k, icol)
    ensures idRow[..] == Zeros(k)
  {
    hide Tables.Ready, Start, Square;
    ghost var m := Square(a[..], k);
    DividePivotRow(gf, a, k, icol);
    ghost var d := Square(a[..], k);
    idRow[icol] := ONE;
    assert idRow[..] == Unit(k, icol);
    ReduceRows(gf, a, k, icol, idRow);
    idRow[icol] := ZERO;
    assert idRow[..] == Zeros(k);
    assert Reduced(d, k, icol, k) == Pivoted(m, k, icol);
  }

  /** Swaps two columns. */
  method SwapColumnsInPlace(a: array<Gf>, k: nat, r: nat, c: nat)
    requires a.Length == Start(k, k) && r < k && c < k
    modifies a
    ensures Square(a[..], k) == SwapColumns(old(Square(a[..], k)), k, r, c)
  {
    ghost var m := Square(a[..], k);
    for row := 0 to k
      invariant forall i :: 0 <= i < k ==> Square(a[..], k)[i] == if i < row then Swap(m[i], r, c) else m[i]
    {
      SwapInRow(a, k, row, r, c);
    }
    assert Square(a[..], k) == SwapColumns(m, k, r, c);
  }

  method SwapInRow(a: array<Gf>, k: nat, row: nat, r: nat, c: nat)
    requires a.Length == Start(k, k) && r < k && c < k && row < k
    modifies a
    ensures Square(a[..], k) == old(Square(a[..], k))[row := Swap(old(Square(a[..], k))[row], r, c)]
  {
    hide Start, Block;
    StartIs(row, k);
    BlockRow(a[..], 0, k, k, row);
    ghost var before := a[..];
    ghost var p := row * k;
    ghost var v := a[p..p + k];
    assert a[p + r] == v[r] && a[p + c] == v[c];
    var tmp := a[row * k + r];
    a[row * k + r] := a[row * k + c];
    a[row * k + c] := tmp;
    assert a[p..p + k] == Swap(v, r, c);
    SetRow(before, a[..], k, k, row);
  }

  /** The bookkeeping arrays record the swaps. */
  ghost predicate Records(indxr: seq<nat>, indxc: seq<nat>, swaps: Swaps) {
    && |swaps| <= |indxr| && |swaps| <= |indxc|
    && forall j :: 0 <= j < |swaps| ==> swaps[j] == (indxr[j], indxc[j])
  }

  /** Undoes the row swaps on the columns, last swap first. */
  method Descramble(a: array<Gf>, k: nat, indxr: array<nat>, indxc: array<nat>, ghost a0: Matrix, ghost swaps: Swaps)
    requires a.Length == Start(k, k) && |swaps| == k == indxr.Length == indxc.Length
    requires Records(indxr[..], indxc[..], swaps)
    requires InvertsUpTo(a0, Square(a[..], k), k, swaps)
    modifies a
    ensures Inverts(a0, Square(a[..], k), k)
  {
    hide Start, Square, InvertsUpTo;
    assert swaps[..k] == swaps;
    for col := k downto 0
      invariant InvertsUpTo(a0, Square(a[..], k), k, swaps[..col])
    {
      var r, c := indxr[col], indxc[col];
      assert swaps[..col + 1] == swaps[..col] + [(r, c)];
      SwapsInRange(a0, Square(a[..], k), k, swaps[..col], r, c);
      UndoSwap(a0, Square(a[..], k), k, swaps[..col], r, c);
      if r != c {
        SwapColumnsInPlace(a, k, r, c);
      } else {
        SwapSameColumn(Square(a[..], k), k, r);
      }
    }
    NoSwapsLeft(a0, Square(a[..], k), k);
  }

  lemma SwapsInRange(a0: Matrix, a: Matrix, k: nat, swaps: Swaps, r: nat, c: nat)
    requires InvertsUpTo(a0, a, k, swaps + [(r, c)])
    ensures r < k && c < k && IsMatrix(a, k, k)
  {
    assert (swaps + [(r, c)])[|swaps|] == (r, c);
  }

  lemma SwapSameColumn(a: Matrix, k: nat, r: nat)
    requires IsMatrix(a, k, k) && r < k
    ensures SwapColumns(a, k, r, r) == a
  {
    forall i | 0 <= i < k ensures SwapColumns(a, k, r, r)[i] == a[i] {
    }
  }

  /** The pivoted indices, as a set with col members. */
  ghost predicate Marks(pivoted: seq<bool>, done: set<nat>, col: nat) {
    && done <= Below(|pivoted|) && |done| == col
    && forall i :: 0 <= i < |pivoted| ==> (pivoted[i] <==> i in done)
  }

  lemma UnpivotedLeft(pivoted: seq<bool>, done: set<nat>, col: nat) returns (c: nat)
    requires Marks(pivoted, done, col) && col < |pivoted|
    ensures c < |pivoted| && !pivoted[c]
  {
    assert done != Below(|pivoted|);
    c :| c in Below(|pivoted|) && c !in done;
  }

  lemma AllMarked(pivoted: seq<bool>, done: set<nat>)
    requires Marks(pivoted, done, |pivoted|)
    ensures forall i :: 0 <= i < |pivoted| ==> pivoted[i]
  {
    FullSubset(done, Below(|pivoted|));
  }

  /** After col rounds: which indices are pivoted, the swaps made, and what the array now means. */
  ghost predicate InProgress(a0: Matrix, m: Matrix, k: nat, ipiv: seq<int>, indxr: seq<nat>, indxc: seq<nat>,
                             pivoted: seq<bool>, done: set<nat>, swaps: Swaps, col: nat) {
    && |pivoted| == k && Flags(ipiv, pivoted) && Marks(pivoted, done, col)
    && |swaps| == col && Records(indxr, indxc, swaps)
    && Exchanged(a0, m, k, pivoted, swaps)
  }

  lemma ProgressInitially(a: Matrix, k: nat, ipiv: seq<int>, indxr: seq<nat>, indxc: seq<nat>)
    requires IsMatrix(a, k, k) && |ipiv| == k && forall i :: 0 <= i < k ==> ipiv[i] == 0
    ensures InProgress(a, a, k, ipiv, indxr, indxc, seq(k, _ => false), {}, [], 0)
  {
    hide Exchanged;
    ExchangedInitially(a, k);
  }

  lemma NextRound(a0: Matrix, m: Matrix, k: nat, ipiv: seq<int>, indxr: seq<nat>, indxc: seq<nat>,
                  pivoted: seq<bool>, done: set<nat>, swaps: Swaps, col: nat, irow: nat, icol: nat)
    requires InProgress(a0, m, k, ipiv, indxr, indxc, pivoted, done, swaps, col)
    requires irow < k && icol < k && !pivoted[irow] && !pivoted[icol] && m[irow][icol] != ZERO
    requires col < |indxr| && col < |indxc|
    ensures InProgress(a0, Pivoted(Swap(m, irow, icol), k, icol), k, ipiv[icol := ipiv[icol] + 1],
                       indxr[col := irow], indxc[col := icol],
                       pivoted[icol := true], done + {icol}, swaps + [(irow, icol)], col + 1)
  {
    hide Exchanged, Pivoted;
    assert IsMatrix(m, k, k) by { ExchangedShape(a0, m, k, pivoted, swaps); }
    ExchangedSwap(a0, m, k, pivoted, swaps, irow, icol);
    ExchangedPivot(a0, Swap(m, irow, icol), k, pivoted, swaps + [(irow, icol)], icol);
  }

  lemma ExchangedShape(a0: Matrix, m: Matrix, k: nat, pivoted: seq<bool>, swaps: Swaps)
    requires Exchanged(a0, m, k, pivoted, swaps)
    ensures IsMatrix(a0, k, k) && IsMatrix(m, k, k)
  {
  }

  /** Swaps the pivot into place, remembers where it came from, and pivots on it. */
  method Round(gf: Tables, a: array<Gf>, k: nat, ipiv: array<int>, indxr: array<nat>, indxc: array<nat>,
               idRow: array<Gf>, col: nat, irow: nat, icol: nat)
    requires gf.Ready() && a.Length == Start(k, k) && ipiv.Length == indxr.Length == indxc.Length == k
    requires idRow != a && idRow[..] == Zeros(k) && indxr != indxc
    requires col < k && irow < k && icol < k && Square(a[..], k)[irow][icol] != ZERO
    modifies a, ipiv, indxr, indxc, idRow
    ensures Square(a[..], k) == Pivoted(Swap(old(Square(a[..], k)), irow, icol), k, icol)
    ensures ipiv[..] == old(ipiv[..])[icol := old(ipiv[icol]) + 1]
    ensures indxr[..] == old(indxr[..])[col := irow] && indxc[..] == old(indxc[..])[col := icol]
    ensures idRow[..] == Zeros(k)
  {
    hide Tables.Ready, Start, Square, Pivoted;
    ipiv[icol] := ipiv[icol] + 1;
    if irow != icol {
      SwapRows(a, k, irow, icol);
    }
    assert Square(a[..], k) == Swap(old(Square(a[..], k)), irow, icol);
    indxr[col] := irow;
    indxc[col] := icol;
    PivotStep(gf, a, k, icol, idRow);
  }

  /** matrix_inv: answers whether the matrix is invertible, and if so leaves its inverse in the array. */
  method MatrixInv(gf: Tables, a: array<Gf>, k: nat) returns (ok: bool)
    requires gf.Ready() && a.Length == Start(k, k)
    modifies a
    ensures ok <==> Invertible(old(Square(a[..], k)), k)
    ensures ok ==> IsInverseMatrix(old(Square(a[..], k)), Square(a[..], k), k)
  {
    hide IsInverseMatrix, Tables.Ready, Start, Square, Flags, Marks, Records, Exchanged, Singular, Inverts, Pivoted;
    ghost var a0 := Square(a[..], k);
    var indxc := new nat[k](_ => 0);
    var indxr := new nat[k](_ => 0);
    var idRow := new Gf[k](_ => ZERO);
    var ipiv := new int[k](_ => 0);
    assert idRow[..] == Zeros(k);
    ghost var pivoted, done, swaps: Swaps := seq(k, _ => false), {}, [];
    ProgressInitially(a0, k, ipiv[..], indxr[..], indxc[..]);
    for col := 0 to k
      invariant idRow[..] == Zeros(k)
      invariant InProgress(a0, Square(a[..], k), k, ipiv[..], indxr[..], indxc[..], pivoted, done, swaps, col)
    {
      var found, irow, icol := FindPivot(a, k, ipiv, col, pivoted);
      if !found {
        var c := UnpivotedLeft(pivoted, done, col);
        NoPivotIsSingular(a0, Square(a[..], k), k, pivoted, swaps, c);
        SingularNotInvertible(a0, k);
        return false;
      }
      NextRound(a0, Square(a[..], k), k, ipiv[..], indxr[..], indxc[..], pivoted, done, swaps, col, irow, icol);
      Round(gf, a, k, ipiv, indxr, indxc, idRow, col, irow, icol);
      pivoted, done, swaps := pivoted[icol := true], done + {icol}, swaps + [(irow, icol)];
    }
    AllMarked(pivoted, done);
    AllPivoted(a0, Square(a[..], k), k, pivoted, swaps);
    Descramble(a, k, indxr, indxc, a0, swaps);
    InvertsIsInverse(a0, Square(a[..], k), k);
    return true;
  }
}
