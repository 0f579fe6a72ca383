/**
 The tiled GEMM of fp8_linear.py over exact arithmetic, its operands read through pointers
 into flat memory.  The reduction is not masked.  `cast` is the rounding to the output type.
 */
module Gemm {
  import opened Wrappers
  import Powers

  type Row = seq<real>
  type Matrix = seq<Row>

  /** What lies in memory from an operand's pointer on, its own elements and all that
      follows them. */
  type Memory = nat -> real

  /** A matrix argument: pointer and strides. */
  datatype Tensor = Tensor(memory: Memory, rowStride: nat, colStride: nat)

  function Load(t: Tensor, i: nat, l: nat): real
  {
    t.memory(i * t.rowStride + l * t.colStride)
  }

  /** Products of elements lo to hi of row i of a and row j of w, summed in order. */
  function Dot(a: Tensor, w: Tensor, i: nat, j: nat, lo: nat, hi: nat): real
    requires lo <= hi
  {
    if lo == hi then 0.0 else Dot(a, w, i, j, lo, hi - 1) + Load(a, i, hi - 1) * Load(w, j, hi - 1)
  }

  lemma {:induction false} DotSplit(a: Tensor, w: Tensor, i: nat, j: nat, lo: nat, mid: nat, hi: nat)
    requires lo <= mid <= hi
    ensures Dot(a, w, i, j, lo, hi) == Dot(a, w, i, j, lo, mid) + Dot(a, w, i, j, mid, hi)
  {
    hide Load;
    if mid < hi { DotSplit(a, w, i, j, lo, mid, hi - 1); }
  }

  ghost predicate Shaped(a: Matrix, rows: nat, cols: nat)
  {
    |a| == rows && forall r <- a :: |r| == cols
  }

  /** Operands of one call: activations with their row scales, weights with theirs. */
  datatype Operands = Operands(a: Tensor, w: Tensor, sa: Row, sw: Row, bias: Row, residual: Option<Matrix>)

  ghost predicate Fits(op: Operands, m: nat, n: nat)
  {
    |op.sa| == m && |op.sw| == n && |op.bias| == n && (op.residual.Some? ==> Shaped(op.residual.value, m, n))
  }

  /** The operands of cell (i, j) beside the matrices are there. */
  predicate Ready(op: Operands, i: nat, j: nat)
  {
    && i < |op.sa| && j < |op.sw| && j < |op.bias|
    && (op.residual.Some? ==> i < |op.residual.value| && j < |op.residual.value[i]|)
  }

  /** Scale, bias and residual after accumulation. */
  function Epilogue(op: Operands, i: nat, j: nat, acc: real): real
    requires Ready(op, i, j)
  {
    acc * op.sa[i] * op.sw[j] + op.bias[j] + if op.residual.Some? then op.residual.value[i][j] else 0.0
  }

  /** The cell over `len` columns: x W^T, scaled, plus bias and residual, cast once.  With
      len == K it is what the call promises. */
  function Cell(op: Operands, len: nat, cast: real -> real, i: nat, j: nat): real
    requires Ready(op, i, j)
  {
    cast(Epilogue(op, i, j, Dot(op.a, op.w, i, j, 0, len)))
  }

  // ---------------------------------------------------------------- the grid

  function Cdiv(n: nat, b: nat): nat
    requires b > 0
  {
    (n + b - 1) / b
  }

  function TileOf(i: nat, b: nat): nat
    requires b > 0
  {
    i / b
  }

  predicate InTile(i: nat, p: nat, b: nat)
  {
    p * b <= i < p * b + b
  }

  /** Every index is in exactly one tile, ... */
  lemma OneTile(i: nat, b: nat, p: nat)
    requires b > 0
    ensures InTile(i, p, b) <==> p == TileOf(i, b)
  {
    var q, r := Powers.Euclid(i, b);
    if p < q { Powers.MulMono(p + 1, q, b); }
    if p > q { Powers.MulMono(q + 1, p, b); }
  }

  /** ... and that tile is in the grid. */
  lemma TileInGrid(i: nat, n: nat, b: nat)
    requires b > 0 && i < n
    ensures TileOf(i, b) < Cdiv(n, b)
  {
    var q, r := Powers.Euclid(i, b);
    var c, s := Powers.Euclid(n + b - 1, b);
    if c <= q { Powers.MulMono(c, q, b); }
  }

  ghost predicate CoversGrid(order: seq<(nat, nat)>, m: nat, n: nat, bm: nat, bn: nat)
    requires bm > 0 && bn > 0
  {
    forall p, q :: 0 <= p < Cdiv(m, bm) && 0 <= q < Cdiv(n, bn) ==> (p, q) in order
  }

  // ---------------------------------------------------------------- one program

  /** How many columns the K loop covers: whole blocks. */
  function Reach(k: nat, bk: nat): nat
    requires bk > 0
  {
    Cdiv(k, bk) * bk
  }

  /** The first multiple of bk from k upwards. */
  lemma ReachIs(k: nat, bk: nat, at: nat)
    requires bk > 0 && at % bk == 0 && k <= at < k + bk
    ensures Reach(k, bk) == at
  {
    var q, _ := Powers.Euclid(at, bk);
    Powers.DivUnique(k + bk - 1, bk, q, k + bk - 1 - at);
  }

  lemma NextMultiple(at: nat, bk: nat)
    requires bk > 0 && at % bk == 0
    ensures (at + bk) % bk == 0
  {
    var q, _ := Powers.Euclid(at, bk);
    Powers.DivUnique(at + bk, bk, q + 1, 0);
  }

  /** tl.dot of one row of a block with one column of another, from pointers pa and pw. */
  function BlockDot(a: Tensor, pa: nat, w: Tensor, pw: nat, len: nat): real
  {
    if len == 0 then 0.0
    else BlockDot(a, pa, w, pw, len - 1) +
         a.memory(pa + (len - 1) * a.colStride) * w.memory(pw + (len - 1) * w.colStride)
  }

  lemma Address(row: nat, at: nat, l: nat, stride: nat)
    ensures row + at * stride + l * stride == row + (at + l) * stride
  {
  }

  /** The block whose pointers moved `at` columns is that part of the dot product. */
  lemma {:induction false} BlockIsDot(op: Operands, i: nat, j: nat, at: nat, len: nat)
    ensures var pa, pw := i * op.a.rowStride + at * op.a.colStride, j * op.w.rowStride + at * op.w.colStride;
            BlockDot(op.a, pa, op.w, pw, len) == Dot(op.a, op.w, i, j, at, at + len)
  {
    if len > 0 {
      BlockIsDot(op, i, j, at, len - 1);
      Address(i * op.a.rowStride, at, len - 1, op.a.colStride);
      Address(j * op.w.rowStride, at, len - 1, op.w.colStride);
    }
  }

  /** What the accumulator of row i and column j holds after `at` columns.  Rows and
      columns beyond the matrices are masked: their loads give zeros. */
  function Masked(op: Operands, m: nat, n: nat, i: nat, j: nat, at: nat): real
  {
    if i < m && j < n then Dot(op.a, op.w, i, j, 0, at) else 0.0
  }

  lemma NothingYet(op: Operands, m: nat, n: nat)
    ensures forall i: nat, j: nat :: Masked(op, m, n, i, j, 0) == 0.0
  {
  }

  /** One block of the reduction, with the pointers moved by aMove and wMove. */
  function Block(op: Operands, m: nat, n: nat, i: nat, j: nat, aMove: nat, wMove: nat, bk: nat): real
  {
    if i < m && j < n then BlockDot(op.a, i * op.a.rowStride + aMove, op.w, j * op.w.rowStride + wMove, bk) else 0.0
  }

  lemma NextBlock(op: Operands, m: nat, n: nat, i: nat, j: nat, at: nat, aMove: nat, wMove: nat, bk: nat)
    requires aMove == at * op.a.colStride && wMove == at * op.w.colStride
    ensures Masked(op, m, n, i, j, at + bk) == Masked(op, m, n, i, j, at) + Block(op, m, n, i, j, aMove, wMove, bk)
  {
    hide Dot, BlockDot;
    BlockIsDot(op, i, j, at, bk);
    DotSplit(op.a, op.w, i, j, 0, at, at + bk);
  }

  lemma Moved(at: nat, bk: nat, stride: nat)
    ensures (at + bk) * stride == at * stride + bk * stride
  {
  }

  /** The K loop of the program whose tile starts at (i0, j0): both pointers move by
      BLOCK_K columns a turn, and every turn loads a whole block. */
  method Accumulate(op: Operands, m: nat, n: nat, k: nat, i0: nat, j0: nat, bm: nat, bn: nat, bk: nat)
    returns (acc: array2<real>)
    requires bk > 0
    ensures fresh(acc) && acc.Length0 == bm && acc.Length1 == bn
    ensures forall r, c :: 0 <= r < bm && 0 <= c < bn ==> acc[r, c] == Masked(op, m, n, i0 + r, j0 + c, Reach(k, bk))
  {
    hide Block, Reach;
    acc := new real[bm, bn]((r, c) => 0.0);
    var at, aMove, wMove := 0, 0, 0;
    NothingYet(op, m, n);
    hide Masked;
    while at < k
      invariant 0 <= at < k + bk && at % bk == 0
      invariant aMove == at * op.a.colStride && wMove == at * op.w.colStride
      invariant forall r, c :: 0 <= r < bm && 0 <= c < bn ==> acc[r, c] == Masked(op, m, n, i0 + r, j0 + c, at)
    {
      forall r, c | 0 <= r < bm && 0 <= c < bn {
        acc[r, c] := acc[r, c] + Block(op, m, n, i0 + r, j0 + c, aMove, wMove, bk);
      }
      forall r, c | 0 <= r < bm && 0 <= c < bn
        ensures acc[r, c] == Masked(op, m, n, i0 + r, j0 + c, at + bk)
      {
        NextBlock(op, m, n, i0 + r, j0 + c, at, aMove, wMove, bk);
      }
      NextMultiple(at, bk);
      Moved(at, bk, op.a.colStride);
      Moved(at, bk, op.w.colStride);
      at, aMove, wMove := at + bk, aMove + bk * op.a.colStride, wMove + bk * op.w.colStride;
    }
    ReachIs(k, bk, at);
  }

  /** A program stores its tile, under the mask, and nothing else. */
  method Program(op: Operands, m: nat, n: nat, k: nat, out: array2<real>, cast: real -> real,
                 p: nat, q: nat, bm: nat, bn: nat, bk: nat)
    requires Fits(op, m, n) && bk > 0 && out.Length0 == m && out.Length1 == n
    modifies out
    ensures forall i, j :: 0 <= i < m && 0 <= j < n ==>
              Ready(op, i, j) && out[i, j] == if InTile(i, p, bm) && InTile(j, q, bn) then
                Cell(op, Reach(k, bk), cast, i, j) else old(out[i, j])
  {
    hide Dot, Reach;
    AllReady(op, m, n);
    var i0, j0 := p * bm, q * bn;
    var acc := Accumulate(op, m, n, k, i0, j0, bm, bn, bk);
    forall i, j | 0 <= i < m && 0 <= j < n && i0 <= i < i0 + bm && j0 <= j < j0 + bn {
      out[i, j] := cast(Epilogue(op, i, j, acc[i - i0, j - j0]));
    }
    forall i, j | 0 <= i < m && 0 <= j < n && InTile(i, p, bm) && InTile(j, q, bn)
      ensures out[i, j] == Cell(op, Reach(k, bk), cast, i, j)
    {
      assert acc[i - i0, j - j0] == Masked(op, m, n, i0 + (i - i0), j0 + (j - j0), Reach(k, bk));
    }
  }

  lemma AllReady(op: Operands, m: nat, n: nat)
    requires Fits(op, m, n)
    ensures forall i, j :: 0 <= i < m && 0 <= j < n ==> Ready(op, i, j)
  {
    forall i, j | 0 <= i < m && 0 <= j < n
      ensures Ready(op, i, j)
    {
      if op.residual.Some? { assert op.residual.value[i] in op.residual.value; }
    }
  }

  // ---------------------------------------------------------------- the whole call

  /** The programs of the grid in any order, some perhaps more than once, fill the whole
      output: each cell is the scaled dot product over the columns the loop reaches. */
  method FpGemm(op: Operands, m: nat, n: nat, k: nat, out: array2<real>, cast: real -> real,
                order: seq<(nat, nat)>, bm: nat, bn: nat, bk: nat)
    requires Fits(op, m, n) && bm > 0 && bn > 0 && bk > 0
    requires out.Length0 == m && out.Length1 == n && CoversGrid(order, m, n, bm, bn)
    modifies out
    ensures forall i, j :: 0 <= i < m && 0 <= j < n ==>
              Ready(op, i, j) && out[i, j] == Cell(op, Reach(k, bk), cast, i, j)
    ensures k % bk == 0 ==> forall i, j :: 0 <= i < m && 0 <= j < n ==>
              Ready(op, i, j) && Promised(op, k, cast, i, j, out[i, j])
  {
    hide Cell, Fits, TileOf, InTile, Cdiv, Ready, Reach, Promised;
    AllReady(op, m, n);
    var t := 0;
    while t < |order|
      invariant 0 <= t <= |order|
      invariant forall i, j :: 0 <= i < m && 0 <= j < n && (TileOf(i, bm), TileOf(j, bn)) in order[..t] ==>
                Ready(op, i, j) && out[i, j] == Cell(op, Reach(k, bk), cast, i, j)
    {
      var (p, q) := order[t];
      Program(op, m, n, k, out, cast, p, q, bm, bn, bk);
      assert order[..t + 1] == order[..t] + [order[t]];
      forall i, j | 0 <= i < m && 0 <= j < n && (TileOf(i, bm), TileOf(j, bn)) in order[..t + 1]
        ensures Ready(op, i, j) && out[i, j] == Cell(op, Reach(k, bk), cast, i, j)
      {
        OneTile(i, bm, p);
        OneTile(j, bn, q);
      }
      t := t + 1;
    }
    forall i, j | 0 <= i < m && 0 <= j < n
      ensures out[i, j] == Cell(op, Reach(k, bk), cast, i, j)
    {
      TileInGrid(i, m, bm);
      TileInGrid(j, n, bn);
      assert (TileOf(i, bm), TileOf(j, bn)) in order && order[..t] == order;
    }
    if k % bk == 0 {
      ReachIs(k, bk, k);
      forall i, j | 0 <= i < m && 0 <= j < n
        ensures Promised(op, k, cast, i, j, out[i, j])
      {
        CellIs(op, k, cast, i, j);
      }
    }
  }

  /** The full dot product, scaled, plus bias and residual, cast once. */
  ghost predicate Promised(op: Operands, k: nat, cast: real -> real, i: nat, j: nat, cell: real)
    requires Ready(op, i, j)
  {
    exists sum :: cell == cast(sum) &&
      sum == Dot(op.a, op.w, i, j, 0, k) * op.sa[i] * op.sw[j] + op.bias[j] +
             if op.residual.Some? then op.residual.value[i][j] else 0.0
  }

  lemma CellIs(op: Operands, k: nat, cast: real -> real, i: nat, j: nat)
    requires Ready(op, i, j)
    ensures Promised(op, k, cast, i, j, Cell(op, k, cast, i, j))
  {
    hide Dot;
    var sum := Epilogue(op, i, j, Dot(op.a, op.w, i, j, 0, k));
    EpilogueIs(op, i, j, Dot(op.a, op.w, i, j, 0, k));
    assert Cell(op, k, cast, i, j) == cast(sum);
  }

  lemma EpilogueIs(op: Operands, i: nat, j: nat, acc: real)
    requires Ready(op, i, j)
    ensures Epilogue(op, i, j, acc) ==
            acc * op.sa[i] * op.sw[j] + op.bias[j] + if op.residual.Some? then op.residual.value[i][j] else 0.0
  {
  }

  // ---------------------------------------------------------------- what the epilogue does

  /** With scales 1, bias 0 and no residual a cell is the dot product; ... */
  lemma PlainCell(op: Operands, k: nat, i: nat, j: nat)
    requires Ready(op, i, j) && op.sa[i] == op.sw[j] == 1.0 && op.bias[j] == 0.0 && op.residual.None?
    ensures Cell(op, k, x => x, i, j) == Dot(op.a, op.w, i, j, 0, k)
  {
    hide Dot;
  }

  /** ... raising one bias raises its column, and no other; ... */
  lemma BiasRaisesColumn(op: Operands, k: nat, i: nat, j: nat, c: nat, d: real)
    requires Ready(op, i, j) && c < |op.bias|
    ensures var more := op.(bias := op.bias[c := op.bias[c] + d]);
            Ready(more, i, j) && Cell(more, k, x => x, i, j) == Cell(op, k, x => x, i, j) + if j == c then d else 0.0
  {
  }

  /** ... a residual adds its own element; ... */
  lemma ResidualAdds(op: Operands, k: nat, i: nat, j: nat, r: Matrix)
    requires Ready(op, i, j) && op.residual.None? && i < |r| && j < |r[i]|
    ensures var more := op.(residual := Some(r));
            Ready(more, i, j) && Cell(more, k, x => x, i, j) == Cell(op, k, x => x, i, j) + r[i][j]
  {
  }

  /** ... and with neither a cell is proportional to the scales of its row and its column. */
  lemma ScalesMultiply(op: Operands, k: nat, i: nat, j: nat, c: real, d: real)
    requires Ready(op, i, j) && op.bias[j] == 0.0 && op.residual.None?
    ensures var more := op.(sa := op.sa[i := c * op.sa[i]], sw := op.sw[j := d * op.sw[j]]);
            Ready(more, i, j) && Cell(more, k, x => x, i, j) == c * d * Cell(op, k, x => x, i, j)
  {
    Commute(Dot(op.a, op.w, i, j, 0, k), op.sa[i], op.sw[j], c, d);
  }

  lemma Commute(p: real, a: real, b: real, c: real, d: real)
    ensures p * (c * a) * (d * b) == c * d * (p * a * b)
  {
    assert p * (c * a) == c * (p * a);
    assert c * (p * a) * (d * b) == c * ((p * a) * (d * b));
    assert (p * a) * (d * b) == d * (p * a * b);
  }

  // ---------------------------------------------------------------- BLOCK_K

  /** What the call computes in cell (i, j) is the full dot product, no more. */
  ghost predicate Right(op: Operands, k: nat, bk: nat, cast: real -> real, i: nat, j: nat)
    requires bk > 0
  {
    Ready(op, i, j) ==> Cell(op, Reach(k, bk), cast, i, j) == Cell(op, k, cast, i, j)
  }

  lemma ReachPast(k: nat, bk: nat)
    requires bk > 0 && k % bk != 0
    ensures Reach(k, bk) > k
  {
    var q, r := Powers.Euclid(k, bk);
    Powers.DivUnique(k + bk - 1, bk, q + 1, r - 1);
    Moved(q, 1, bk);
  }

  /** Zero but for a 1 behind the last column of row 0. */
  function Spill(k: nat, colStride: nat): Memory
  {
    x => if x == k * colStride then 1.0 else 0.0
  }

  /** The sum over the first row sees nothing of it before column k, and 1 from there on. */
  lemma {:induction false} SpillDot(a: Tensor, w: Tensor, k: nat, len: nat)
    requires a.colStride > 0 && w.colStride > 0
    requires a.memory == Spill(k, a.colStride) && w.memory == Spill(k, w.colStride)
    ensures Dot(a, w, 0, 0, 0, len) == if len <= k then 0.0 else 1.0
  {
    if len > 0 {
      SpillDot(a, w, k, len - 1);
      Powers.ScaleOrder(a.colStride, len - 1, k);
      Powers.ScaleOrder(w.colStride, len - 1, k);
    }
  }

  /** Operands of any strides, with a 1 behind the first row of each matrix. */
  function SpillOperands(m: nat, n: nat, k: nat, ar: nat, ac: nat, wr: nat, wc: nat): Operands
  {
    Operands(Tensor(Spill(k, ac), ar, ac), Tensor(Spill(k, wc), wr, wc),
             seq(m, _ => 1.0), seq(n, _ => 1.0), seq(n, _ => 0.0), None)
  }

  /** A loop that runs past the row adds what lies behind it. */
  lemma SpillWrong(m: nat, n: nat, k: nat, ar: nat, ac: nat, wr: nat, wc: nat, bk: nat)
    requires m > 0 && n > 0 && ac > 0 && wc > 0 && bk > 0 && k % bk != 0
    ensures var op := SpillOperands(m, n, k, ar, ac, wr, wc);
            Fits(op, m, n) && Ready(op, 0, 0) && Cell(op, Reach(k, bk), x => x, 0, 0) == 1.0 &&
              Cell(op, k, x => x, 0, 0) == 0.0
  {
    hide Reach, Dot, Spill;
    var op := SpillOperands(m, n, k, ar, ac, wr, wc);
    ReachPast(k, bk);
    SpillDot(op.a, op.w, k, Reach(k, bk));
    SpillDot(op.a, op.w, k, k);
  }

  ghost predicate Strided(op: Operands, ar: nat, ac: nat, wr: nat, wc: nat)
  {
    op.a.rowStride == ar && op.a.colStride == ac && op.w.rowStride == wr && op.w.colStride == wc
  }

  /** Whatever lies in memory, every cell of the output is the full dot product exactly
      when BLOCK_K divides K: the reduction is not masked. */
  lemma RightExactlyWhen(m: nat, n: nat, k: nat, ar: nat, ac: nat, wr: nat, wc: nat, bk: nat)
    requires m > 0 && n > 0 && ac > 0 && wc > 0 && bk > 0
    ensures (forall op, cast, i, j :: Fits(op, m, n) && Strided(op, ar, ac, wr, wc) ==>
              Right(op, k, bk, cast, i, j)) <==> k % bk == 0
  {
    hide Reach, Cell, Fits;
    if k % bk == 0 {
      ReachIs(k, bk, k);
    } else {
      var op := SpillOperands(m, n, k, ar, ac, wr, wc);
      SpillWrong(m, n, k, ar, ac, wr, wc, bk);
      assert Strided(op, ar, ac, wr, wc) && !Right(op, k, bk, x => x, 0, 0);
    }
  }

  /** Contiguous, and nothing but zeros behind the last row. */
  ghost predicate Contiguous(t: Tensor, rows: nat, k: nat)
  {
    t.rowStride == k && t.colStride == 1 && forall x: nat :: x >= rows * k ==> t.memory(x) == 0.0
  }

  lemma SpillContiguous(rows: nat, k: nat)
    requires rows >= 2 && k > 0
    ensures Contiguous(Tensor(Spill(k, 1), k, 1), rows, k)
  {
    Powers.MulMono(2, rows, k);
  }

  /** And it needs nothing unusual behind the tensors to go wrong: with two rows, what is
      added by mistake is the second row. */
  lemma RightOnTensorsExactlyWhen(m: nat, n: nat, k: nat, bk: nat)
    requires m >= 2 && n >= 2 && bk > 0
    ensures (forall op, cast, i, j :: Fits(op, m, n) && Contiguous(op.a, m, k) && Contiguous(op.w, n, k) ==>
              Right(op, k, bk, cast, i, j)) <==> k % bk == 0
  {
    hide Reach, Cell, Fits, Contiguous;
    if k % bk == 0 {
      ReachIs(k, bk, k);
    } else {
      var op := SpillOperands(m, n, k, k, 1, k, 1);
      SpillWrong(m, n, k, k, 1, k, 1, bk);
      assert k != 0;
      SpillContiguous(m, k);
      SpillContiguous(n, k);
      assert !Right(op, k, bk, x => x, 0, 0);
    }
  }
}
