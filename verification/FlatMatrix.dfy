/** Matrices stored row after row in one array, and the loops over them
    (rtp/fec/fec_galois.c gf_add_mul, rtp/fec/fec_matrix.c matrix_mul). */
module FlatMatrix {
  import opened Gf256
  import opened LinearAlgebra
  import opened GaloisTables

  /** Where row i begins: i * k, by repeated addition to keep the proofs linear. */
  ghost function Start(i: nat, k: nat): nat {
    if i == 0 then 0 else Start(i - 1, k) + k
  }

  lemma {:induction false} StartIs(i: nat, k: nat)
    ensures Start(i, k) == i * k
  {
    if i > 0 {
      StartIs(i - 1, k);
      assert i * k == (i - 1) * k + k;
    }
  }

  lemma StartNext(i: nat, k: nat)
    ensures Start(0, k) == 0 && Start(i + 1, k) == Start(i, k) + k
  {
  }

  lemma {:induction false} RowFits(i: nat, n: nat, k: nat)
    requires i < n
    ensures Start(i, k) + k <= Start(n, k)
  {
    if i < n - 1 {
      RowFits(i, n - 1, k);
    }
  }

  lemma RowsFit(n: nat, k: nat)
    ensures forall i {:trigger Start(i, k)} :: 0 <= i < n ==> Start(i, k) + k <= Start(n, k)
  {
    forall i | 0 <= i < n ensures Start(i, k) + k <= Start(n, k) {
      RowFits(i, n, k);
    }
  }

  lemma RowsApart(i: nat, j: nat, k: nat)
    requires i != j
    ensures Start(i, k) + k <= Start(j, k) || Start(j, k) + k <= Start(i, k)
  {
    if i < j {
      RowFits(i, j, k);
    } else {
      RowFits(j, i, k);
    }
  }

  /** The n rows of length k that start at offset off. */
  ghost function Block(s: seq<Gf>, off: nat, n: nat, k: nat): (m: Matrix)
    requires off + Start(n, k) <= |s|
    ensures IsMatrix(m, n, k)
  {
    RowsFit(n, k);
    seq(n, i requires 0 <= i < n => s[off + Start(i, k)..off + Start(i, k) + k])
  }

  lemma BlockRow(s: seq<Gf>, off: nat, n: nat, k: nat, i: nat)
    requires off + Start(n, k) <= |s| && i < n
    ensures Start(i, k) + k <= Start(n, k)
    ensures Block(s, off, n, k)[i] == s[off + Start(i, k)..off + Start(i, k) + k]
    ensures forall j :: 0 <= j < k ==> Block(s, off, n, k)[i][j] == s[off + Start(i, k) + j]
  {
    RowFits(i, n, k);
  }

  /** Nothing outside the n places from off on differs. */
  ghost predicate SameOutside(s: seq<Gf>, t: seq<Gf>, off: nat, n: nat) {
    |s| == |t| && forall p :: 0 <= p < |s| && !(off <= p < off + n) ==> t[p] == s[p]
  }

  lemma SameRows(s: seq<Gf>, t: seq<Gf>, off: nat, n: nat, k: nat)
    requires |s| == |t| && off + Start(n, k) <= |s|
    requires forall p :: off <= p < off + Start(n, k) ==> t[p] == s[p]
    ensures Block(t, off, n, k) == Block(s, off, n, k)
  {
    forall i | 0 <= i < n ensures Block(t, off, n, k)[i] == Block(s, off, n, k)[i] {
      BlockRow(s, off, n, k, i);
      BlockRow(t, off, n, k, i);
    }
  }

  /** Rewriting the places of one row replaces that row. */
  lemma SetRow(s: seq<Gf>, t: seq<Gf>, n: nat, k: nat, r: nat)
    requires Start(n, k) <= |s| && r < n && SameOutside(s, t, Start(r, k), k)
    ensures Start(r, k) + k <= |t|
    ensures Block(t, 0, n, k) == Block(s, 0, n, k)[r := t[Start(r, k)..Start(r, k) + k]]
  {
    BlockRow(t, 0, n, k, r);
    forall i | 0 <= i < n
      ensures Block(t, 0, n, k)[i] == Block(s, 0, n, k)[r := t[Start(r, k)..Start(r, k) + k]][i]
    {
      BlockRow(s, 0, n, k, i);
      BlockRow(t, 0, n, k, i);
      if i != r {
        RowsApart(i, r, k);
      }
    }
  }

  /** a + c b. */
  ghost function AddMul(u: Vec, c: Gf, v: Vec): (r: Vec)
    requires |u| == |v|
    ensures |r| == |u|
  {
    Sum(u, Scale(c, v))
  }

  /** gf_add_mul: adds c times the n elements at b + bo to the n elements at a + ao. */
  method GfAddMul(gf: Tables, a: array<Gf>, ao: nat, b: array<Gf>, bo: nat, c: Gf, n: nat)
    requires gf.Ready() && ao + n <= a.Length && bo + n <= b.Length
    requires a != b || ao + n <= bo || bo + n <= ao
    modifies a
    ensures a[ao..ao + n] == AddMul(old(a[ao..ao + n]), c, old(b[bo..bo + n]))
    ensures SameOutside(old(a[..]), a[..], ao, n)
  {
    ghost var u, v := a[ao..ao + n], b[bo..bo + n];
    for i := 0 to n
      invariant a[ao..ao + i] == AddMul(u, c, v)[..i]
      invariant a[ao + i..ao + n] == u[i..]
      invariant b[bo..bo + n] == v
      invariant SameOutside(old(a[..]), a[..], ao, n)
    {
      hide Mul, Add;
      assert a[ao + i] == u[i] && b[bo + i] == v[i];
      a[ao + i] := Plus(a[ao + i], gf.Times(c, b[bo + i]));
    }
  }

  /** matrix_mul: the n by k block at a + ao times the k by m block at b + bo, stored at c + co. */
  method MatrixMul(gf: Tables, a: array<Gf>, ao: nat, b: array<Gf>, bo: nat, c: array<Gf>, co: nat,
                   n: nat, k: nat, m: nat)
    requires gf.Ready() && c != a && c != b
    requires ao + Start(n, k) <= a.Length && bo + Start(k, m) <= b.Length && co + Start(n, m) <= c.Length
    modifies c
    ensures Block(c[..], co, n, m) == MatMul(Block(a[..], ao, n, k), Block(b[..], bo, k, m), n, k, m)
    ensures SameOutside(old(c[..]), c[..], co, Start(n, m))
  {
    hide Tables.Ready, Dot, Block, RowTimes;
    ghost var left, right := Block(a[..], ao, n, k), Block(b[..], bo, k, m);
    for row := 0 to n
      invariant Start(row, m) <= Start(n, m)
      invariant SameOutside(old(c[..]), c[..], co, Start(row, m))
      invariant forall i :: 0 <= i < row ==> Block(c[..], co, n, m)[i] == RowTimes(left[i], right, m)
    {
      RowFits(row, n, m);
      StartIs(row, m);
      ghost var before := c[..];
      MatrixMulRow(gf, a, ao, b, bo, c, co + row * m, n, k, m, row);
      forall i | 0 <= i <= row ensures Block(c[..], co, n, m)[i] == RowTimes(left[i], right, m) {
        BlockRow(c[..], co, n, m, i);
        BlockRow(before, co, n, m, i);
        if i != row {
          RowFits(i, row, m);
        }
      }
    }
  }

  method MatrixMulRow(gf: Tables, a: array<Gf>, ao: nat, b: array<Gf>, bo: nat, c: array<Gf>, cr: nat,
                      n: nat, k: nat, m: nat, row: nat)
    requires gf.Ready() && c != a && c != b && row < n
    requires ao + Start(n, k) <= a.Length && bo + Start(k, m) <= b.Length && cr + m <= c.Length
    modifies c
    ensures c[cr..cr + m] == RowTimes(Block(a[..], ao, n, k)[row], Block(b[..], bo, k, m), m)
    ensures SameOutside(old(c[..]), c[..], cr, m)
  {
    ghost var r := RowTimes(Block(a[..], ao, n, k)[row], Block(b[..], bo, k, m), m);
    for col := 0 to m
      invariant SameOutside(old(c[..]), c[..], cr, col)
      invariant c[cr..cr + col] == r[..col]
    {
      var acc := MatrixMulEntry(gf, a, ao, b, bo, n, k, m, row, col);
      c[cr + col] := acc;
    }
  }

  /** The inner loop: one row of a against one column of b. */
  method MatrixMulEntry(gf: Tables, a: array<Gf>, ao: nat, b: array<Gf>, bo: nat,
                        n: nat, k: nat, m: nat, row: nat, col: nat)
    returns (acc: Gf)
    requires gf.Ready() && row < n && col < m
    requires ao + Start(n, k) <= a.Length && bo + Start(k, m) <= b.Length
    ensures acc == Dot(Block(a[..], ao, n, k)[row], Column(Block(b[..], bo, k, m), col))
  {
    hide Tables.Ready, Tables.Times, Plus, Dot, Start, Block;
    ghost var u, v := Block(a[..], ao, n, k)[row], Column(Block(b[..], bo, k, m), col);
    acc := ZERO;
    DotEmpty(u, v);
    var pa, pb := ao + row * k, bo + col;
    StartIs(row, k);
    StartNext(0, m);
    BlockRow(a[..], ao, n, k, row);
    for i := 0 to k
      invariant acc == Dot(u[..i], v[..i])
      invariant pa == ao + Start(row, k) + i && pb == bo + Start(i, m) + col
    {
      StartNext(i, m);
      BlockRow(b[..], bo, k, m, i);
      acc := Plus(acc, gf.Times(a[pa], b[pb]));
      DotExtend(u, v, i);
      pa, pb := pa + 1, pb + m;
    }
    assert u[..k] == u && v[..k] == v;
  }

  lemma DotEmpty(u: Vec, v: Vec)
    requires |u| == |v|
    ensures Dot(u[..0], v[..0]) == ZERO
  {
  }

  lemma {:induction false} DotExtend(u: Vec, v: Vec, i: nat)
    requires |u| == |v| && i < |u|
    ensures Dot(u[..i + 1], v[..i + 1]) == Add(Dot(u[..i], v[..i]), Mul(u[i], v[i]))
  {
    if i == 0 {
      AddComm(ZERO, Mul(u[0], v[0]));
    } else {
      assert u[..i + 1][1..] == u[1..][..i] && v[..i + 1][1..] == v[1..][..i];
      assert u[..i][1..] == u[1..][..i - 1] && v[..i][1..] == v[1..][..i - 1];
      DotExtend(u[1..], v[1..], i - 1);
      AddAssoc(Mul(u[0], v[0]), Dot(u[1..][..i - 1], v[1..][..i - 1]), Mul(u[i], v[i]));
    }
  }
}
