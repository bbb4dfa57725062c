/**
 The nonzero pattern of a dense n-by-n matrix and the compressed-row arrays
 (`Ap`, `Ai`) that describe it: the specification the conversion in
 AmdExtension is proved against.
 */
module Pattern {

  /** What reading one matrix entry yields: a zero, a nonzero, or a failure
      (an unsupported element format, or a NaN or infinite value). */
  datatype Entry = Zero | Nonzero | Invalid

  /** A strided buffer as the extension sees it: one extent per dimension,
      and the entry read at row i, column j (the strides are folded into `at`). */
  datatype View = View(shape: seq<nat>, at: (nat, nat) -> Entry)

  /** The buffer is a two-dimensional square matrix. */
  predicate IsSquare(view: View)
  {
    |view.shape| == 2 && view.shape[0] == view.shape[1]
  }

  /** Every entry a row-major scan of the n-by-n matrix reads before it
      reaches row i, column j reads successfully. */
  ghost predicate ValidBefore(at: (nat, nat) -> Entry, n: nat, i: nat, j: nat)
  {
    forall r: nat, q: nat :: r < n && q < n && (r < i || (r == i && q < j)) ==> at(r, q) != Invalid
  }

  /** No entry of the n-by-n matrix fails to read. */
  ghost predicate AllValid(at: (nat, nat) -> Entry, n: nat)
  {
    ValidBefore(at, n, n, 0)
  }

  /** The set of columns j < k whose entry in row i is nonzero: the reference
      the compressed arrays are checked against. */
  ghost function NonzeroSet(at: (nat, nat) -> Entry, i: nat, k: nat): set<nat>
  {
    set j: nat | j < k && at(i, j) == Nonzero
  }

  /** The columns j < k of row i whose entry is nonzero, in the order a
      left-to-right scan of the row meets them. */
  function RowColumns(at: (nat, nat) -> Entry, i: nat, k: nat): (cols: seq<int>)
  {
    if k == 0 then []
    else RowColumns(at, i, k - 1) + (if at(i, k - 1) == Nonzero then [k - 1] else [])
  }

  /** A row scan lists, in strictly increasing order, exactly the columns
      j < k whose entry is nonzero. */
  lemma {:induction false} RowColumnsSpec(at: (nat, nat) -> Entry, i: nat, k: nat)
    ensures var cols := RowColumns(at, i, k);
      && |cols| <= k
      && (forall p :: 0 <= p < |cols| ==> 0 <= cols[p] < k && at(i, cols[p]) == Nonzero)
      && (forall p, q :: 0 <= p < q < |cols| ==> cols[p] < cols[q])
      && (forall j: nat :: j < k && at(i, j) == Nonzero ==> j in cols)
  {
    if k > 0 {
      RowColumnsSpec(at, i, k - 1);
    }
  }

  /** The column indices of the nonzeros of rows 0 .. i-1 of an n-column
      matrix, row by row: the first part of `Ai`. */
  function Columns(at: (nat, nat) -> Entry, n: nat, i: nat): (ai: seq<int>)
  {
    if i == 0 then [] else Columns(at, n, i - 1) + RowColumns(at, i - 1, n)
  }

  /** Every listed column index lies in [0, n). */
  lemma {:induction false} ColumnsRange(at: (nat, nat) -> Entry, n: nat, i: nat)
    ensures forall p :: 0 <= p < |Columns(at, n, i)| ==> 0 <= Columns(at, n, i)[p] < n
  {
    if i > 0 {
      ColumnsRange(at, n, i - 1);
      RowColumnsSpec(at, i - 1, n);
    }
  }

  /** The row-pointer array of an n-by-n matrix: entry i is the number of
      nonzeros in the rows before row i. */
  function RowPointers(at: (nat, nat) -> Entry, n: nat): (ap: seq<int>)
    ensures |ap| == n + 1 && ap[0] == 0
  {
    seq(n + 1, i requires 0 <= i <= n => |Columns(at, n, i)|)
  }

  /** The column indices a row-major scan has listed when it reaches
      row i, column j. */
  function Scanned(at: (nat, nat) -> Entry, n: nat, i: nat, j: nat): seq<int>
  {
    Columns(at, n, i) + RowColumns(at, i, j)
  }

  /** The number of nonzeros a row-major scan meets before it reaches
      row i, column j. */
  function NonzerosBefore(at: (nat, nat) -> Entry, n: nat, i: nat, j: nat): nat
  {
    |Scanned(at, n, i, j)|
  }

  /** A scan of row i counts exactly the nonzero columns of that row. */
  lemma {:induction false} RowCount(at: (nat, nat) -> Entry, i: nat, k: nat)
    ensures |RowColumns(at, i, k)| == |NonzeroSet(at, i, k)|
  {
    if k > 0 {
      RowCount(at, i, k - 1);
      NonzeroSetStep(at, i, k);
    }
  }

  /** Extending the scanned part of a row by column k - 1 adds that column
      to the set exactly when its entry is nonzero. */
  lemma NonzeroSetStep(at: (nat, nat) -> Entry, i: nat, k: nat)
    requires k > 0
    ensures k - 1 !in NonzeroSet(at, i, k - 1)
    ensures NonzeroSet(at, i, k) ==
      NonzeroSet(at, i, k - 1) + (if at(i, k - 1) == Nonzero then {k - 1} else {})
  {
  }

  /** Scanning a row further only appends columns. */
  lemma {:induction false} RowColumnsPrefix(at: (nat, nat) -> Entry, i: nat, j: nat, k: nat)
    requires j <= k
    ensures RowColumns(at, i, j) <= RowColumns(at, i, k)
  {
    if j < k {
      RowColumnsPrefix(at, i, j, k - 1);
    }
  }

  /** Listing more rows only appends column indices. */
  lemma {:induction false} ColumnsPrefix(at: (nat, nat) -> Entry, n: nat, i: nat, m: nat)
    requires i <= m
    ensures Columns(at, n, i) <= Columns(at, n, m)
  {
    if i < m {
      ColumnsPrefix(at, n, i, m - 1);
    }
  }

  /** What a row-major scan has listed when it reaches row i, column k is a
      prefix of the full column-index array. */
  lemma ScanPrefix(at: (nat, nat) -> Entry, n: nat, i: nat, k: nat)
    requires i < n && k <= n
    ensures Columns(at, n, i) + RowColumns(at, i, k) <= Columns(at, n, n)
    ensures NonzerosBefore(at, n, i, k) <= |Columns(at, n, n)|
  {
    RowColumnsPrefix(at, i, k, n);
    ColumnsPrefix(at, n, i + 1, n);
    var row, full := RowColumns(at, i, k), RowColumns(at, i, n);
    assert Columns(at, n, i + 1) == Columns(at, n, i) + full;
    assert Columns(at, n, i) + row <= Columns(at, n, i) + full;
  }

  /** A row-major scan meets no fewer nonzeros before a later position. */
  lemma NonzerosBeforeMonotone(at: (nat, nat) -> Entry, n: nat, i: nat, j: nat, r: nat, q: nat)
    requires i < n && j <= n && q <= n
    requires i < r || (i == r && j <= q)
    ensures NonzerosBefore(at, n, i, j) <= NonzerosBefore(at, n, r, q)
  {
    if i < r {
      RowColumnsPrefix(at, i, j, n);
      ColumnsPrefix(at, n, i + 1, r);
      assert Columns(at, n, i + 1) == Columns(at, n, i) + RowColumns(at, i, n);
    } else {
      RowColumnsPrefix(at, i, j, q);
    }
  }

  /** A nonzero at (i, j) with all but one of the nonzeros before it is the
      last nonzero of the matrix: no later entry in row-major order is
      nonzero. */
  lemma LastNonzero(at: (nat, nat) -> Entry, n: nat, i: nat, j: nat)
    requires i < n && j < n && at(i, j) == Nonzero
    requires NonzerosBefore(at, n, i, j) + 1 == |Columns(at, n, n)|
    ensures forall r: nat, q: nat :: r < n && q < n && (i < r || (i == r && j < q)) ==> at(r, q) != Nonzero
  {
    forall r: nat, q: nat | r < n && q < n && (i < r || (i == r && j < q))
      ensures at(r, q) != Nonzero
    {
      if at(r, q) == Nonzero {
        NonzerosBeforeMonotone(at, n, i, j + 1, r, q);
        ScanPrefix(at, n, r, q + 1);
        assert false;
      }
    }
  }

  /** One step of the scan: reading entry (i, j) lists column j exactly when
      the entry is nonzero, and never lists more than the whole matrix has. */
  lemma ScanStep(at: (nat, nat) -> Entry, n: nat, i: nat, j: nat)
    requires i < n && j < n
    ensures Scanned(at, n, i, j + 1) ==
      Scanned(at, n, i, j) + (if at(i, j) == Nonzero then [j] else [])
    ensures |Scanned(at, n, i, j + 1)| <= |Columns(at, n, n)|
    ensures |Scanned(at, n, i, j + 1)| == |Columns(at, n, n)| ==>
      Scanned(at, n, i, j + 1) == Columns(at, n, n)
  {
    ScanPrefix(at, n, i, j + 1);
  }

  /** Reading entry (i, j) successfully extends the valid prefix by one. */
  lemma ValidStep(at: (nat, nat) -> Entry, n: nat, i: nat, j: nat)
    requires j < n && ValidBefore(at, n, i, j) && at(i, j) != Invalid
    ensures ValidBefore(at, n, i, j + 1)
  {
  }

  /** A scan that has read all of row i successfully may go on to row i + 1. */
  lemma ValidRowEnd(at: (nat, nat) -> Entry, n: nat, i: nat)
    requires ValidBefore(at, n, i, n)
    ensures ValidBefore(at, n, i + 1, 0)
  {
  }

  /** The end of row i is the start of row i + 1. */
  lemma ScanRowEnd(at: (nat, nat) -> Entry, n: nat, i: nat)
    ensures Scanned(at, n, i, n) == Scanned(at, n, i + 1, 0)
  {
    assert Columns(at, n, i + 1) == Columns(at, n, i) + RowColumns(at, i, n);
  }

  /** Each step of the row pointers is the number of nonzeros in that row. */
  lemma RowPointersStep(at: (nat, nat) -> Entry, n: nat, i: nat)
    requires i < n
    ensures RowPointers(at, n)[i + 1] - RowPointers(at, n)[i] == |NonzeroSet(at, i, n)|
  {
    RowCount(at, i, n);
  }

  /** The row pointers never decrease, and the last one is the total number
      of column indices. */
  lemma {:induction false} RowPointersMonotone(at: (nat, nat) -> Entry, n: nat, i: nat, j: nat)
    requires i <= j <= n
    ensures RowPointers(at, n)[i] <= RowPointers(at, n)[j] <= RowPointers(at, n)[n] == |Columns(at, n, n)|
  {
    ColumnsPrefix(at, n, i, j);
    ColumnsPrefix(at, n, j, n);
  }

  /** The slice Ai[Ap[i] .. Ap[i+1]] is exactly the strictly increasing list
      of the nonzero columns of row i. */
  lemma RowSlice(at: (nat, nat) -> Entry, n: nat, i: nat)
    requires i < n
    ensures RowPointers(at, n)[i] <= RowPointers(at, n)[i + 1] <= |Columns(at, n, n)|
    ensures Columns(at, n, n)[RowPointers(at, n)[i]..RowPointers(at, n)[i + 1]] == RowColumns(at, i, n)
  {
    ColumnsPrefix(at, n, i + 1, n);
    var all := Columns(at, n, n);
    var upto := Columns(at, n, i + 1);
    assert upto == Columns(at, n, i) + RowColumns(at, i, n);
    assert all[..|upto|] == upto;
  }

  /** Reading the compressed arrays back gives the input pattern exactly:
      column j is listed for row i if and only if entry (i, j) is nonzero.
      Diagonal entries and entries without a mirror image are kept as they are. */
  lemma RowPattern(at: (nat, nat) -> Entry, n: nat, i: nat, j: nat)
    requires i < n && j < n
    ensures RowPointers(at, n)[i] <= RowPointers(at, n)[i + 1] <= |Columns(at, n, n)|
    ensures j in Columns(at, n, n)[RowPointers(at, n)[i]..RowPointers(at, n)[i + 1]] <==> at(i, j) == Nonzero
  {
    RowSlice(at, n, i);
    RowColumnsSpec(at, i, n);
  }

  /** The first i rows of an n-column matrix hold at most i * n nonzeros. */
  lemma {:induction false} ColumnsLength(at: (nat, nat) -> Entry, n: nat, i: nat)
    ensures |Columns(at, n, i)| <= i * n
  {
    if i > 0 {
      ColumnsLength(at, n, i - 1);
      RowColumnsSpec(at, i - 1, n);
      assert (i - 1) * n + n == i * n;
    }
  }

  /** Multiplying by a natural number keeps the order. */
  lemma {:induction false} MulMonotone(a: nat, b: nat, c: nat)
    requires a <= b
    ensures a * c <= b * c
  {
    if c > 0 {
      MulMonotone(a, b, c - 1);
      assert a * c == a * (c - 1) + a;
      assert b * c == b * (c - 1) + b;
    }
  }

  /** The row pointers and column indices fit in a signed 32-bit integer
      exactly when the order n and the number of nonzeros do: the range where
      unbounded integers agree with the int32 arrays handed to the ordering.
      (Ap[n] is the number of nonzeros, so that bound cannot be dropped.) */
  lemma Int32Range(at: (nat, nat) -> Entry, n: nat)
    requires n < 0x8000_0000 && |Columns(at, n, n)| < 0x8000_0000
    ensures forall p :: 0 <= p <= n ==> 0 <= RowPointers(at, n)[p] < 0x8000_0000
    ensures forall p :: 0 <= p < |Columns(at, n, n)| ==> 0 <= Columns(at, n, n)[p] < 0x8000_0000
  {
    forall p | 0 <= p <= n
      ensures RowPointers(at, n)[p] <= |Columns(at, n, n)|
    {
      RowPointersMonotone(at, n, p, n);
    }
    ColumnsRange(at, n, n);
  }

  /** A sufficient condition for Int32Range: n * n fits in a signed 32-bit
      integer, since the matrix has at most n * n nonzeros. */
  lemma Int32Sufficient(at: (nat, nat) -> Entry, n: nat)
    requires n * n < 0x8000_0000
    ensures n < 0x8000_0000 && |Columns(at, n, n)| < 0x8000_0000
  {
    ColumnsLength(at, n, n);
    if n > 0 {
      MulMonotone(1, n, n);
    }
  }
}
