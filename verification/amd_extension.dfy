/**
 The `_amd` extension function: it validates the shape of a dense matrix
 buffer, converts the matrix into the compressed-row arrays `Ap` and `Ai`
 in two passes, hands them to the ordering routine and copies the
 resulting permutation into a list.
 */
module AmdExtension {
  import opened Pattern

  /** The ValueError conditions the extension raises. */
  datatype Error =
    | NotTwoDimensional  // "Expected 2 dimensional arrays"
    | NotSquare          // "Expected a square matrix with equal number of rows and columns"
    | BadEntry           // "Unsupported dtype or NaN/Inf encountered"

  datatype Result<T> = Ok(value: T) | Err(error: Error)

  /** The order of the matrix and its compressed-row arrays. */
  datatype Compressed = Compressed(n: nat, ap: array<int>, ai: array<int>)

  /**
   First pass. Reads every entry of the n-by-n matrix in row-major order,
   keeps a running count of the nonzeros and stores it in Ap[i + 1] once
   row i is done. Fails on the first entry that does not read.
   */
  method CountRows(at: (nat, nat) -> Entry, n: nat) returns (ok: bool, ap: array<int>, count: int)
    ensures ap.Length == n + 1
    ensures ok <==> AllValid(at, n)
    ensures ok ==> ap[..] == RowPointers(at, n)
    ensures ok ==> count == |Columns(at, n, n)|
  {
    ap := new int[n + 1](_ => 0);  // zero-filled, like PyMem_Calloc
    ap[0] := 0;
    count := 0;
    ghost var pointers := RowPointers(at, n);
    var i := 0;
    while i < n
      invariant 0 <= i <= n
      invariant count == pointers[i]
      invariant ap[..i + 1] == pointers[..i + 1]
      invariant ValidBefore(at, n, i, 0)
    {
      var j := 0;
      while j < n
        invariant 0 <= j <= n
        invariant count == |Columns(at, n, i)| + |RowColumns(at, i, j)|
        invariant ap[..i + 1] == pointers[..i + 1]
        invariant ValidBefore(at, n, i, j)
      {
        if at(i, j) == Invalid {
          return false, ap, count;
        }
        ValidStep(at, n, i, j);
        if at(i, j) == Nonzero {
          count := count + 1;
        }
        j := j + 1;
      }
      assert Columns(at, n, i + 1) == Columns(at, n, i) + RowColumns(at, i, n);
      assert count == pointers[i + 1];
      ValidRowEnd(at, n, i);
      ap[i + 1] := count;
      assert ap[..i + 2] == ap[..i + 1] + [count];
      i := i + 1;
    }
    assert ap[..] == ap[..n + 1];
    ok := true;
  }

  /**
   Second pass. Allocates Ai with `count` slots and, scanning the matrix in
   row-major order again, writes the column of each nonzero at the next
   index. It stops as soon as `count` indices are written, so with
   count = 0 it reads only the first entry. (si, sj) is the last entry
   read; the pass fails when that entry does not read.
   */
  method ListColumns(at: (nat, nat) -> Entry, n: nat, count: int)
    returns (ok: bool, ai: array<int>, si: nat, sj: nat)
    requires count == |Columns(at, n, n)|
    ensures ai.Length == count
    ensures ok ==> ai[..] == Columns(at, n, n)
    ensures n > 0 ==> si < n && sj < n
    ensures ok <==> n == 0 || at(si, sj) != Invalid
    // every entry read before the last one was valid
    ensures ValidBefore(at, n, si, sj)
    // the scan goes on only while fewer than count indices are written
    ensures n > 0 && (si > 0 || sj > 0) ==> NonzerosBefore(at, n, si, sj) < count
    // on success, the exit fires at the last nonzero, or at once when there is none
    ensures n > 0 && ok && count > 0 ==> at(si, sj) == Nonzero && NonzerosBefore(at, n, si, sj) == count - 1
    ensures n > 0 && ok && count == 0 ==> si == 0 && sj == 0
  {
    ai := new int[count](_ => 0);  // zero-filled, like PyMem_Calloc
    si, sj := 0, 0;
    var index := 0;
    var i := 0;
    while i < n
      invariant 0 <= i <= n
      invariant index <= count && (i > 0 ==> index < count)
      invariant ai[..index] == Scanned(at, n, i, 0)
      invariant ValidBefore(at, n, i, 0)
    {
      var j := 0;
      while j < n
        invariant 0 <= j <= n
        invariant index <= count && ((i > 0 || j > 0) ==> index < count)
        invariant ai[..index] == Scanned(at, n, i, j)
        invariant ValidBefore(at, n, i, j)
      {
        si, sj := i, j;
        if at(i, j) == Invalid {
          return false, ai, si, sj;
        }
        ScanStep(at, n, i, j);
        ValidStep(at, n, i, j);
        if at(i, j) == Nonzero {
          ai[index] := j;
          assert ai[..index + 1] == ai[..index] + [j];
          index := index + 1;
        }
        if index >= count {
          assert ai[..] == ai[..index];
          return true, ai, si, sj;
        }
        j := j + 1;
      }
      ScanRowEnd(at, n, i);
      ValidRowEnd(at, n, i);
      i := i + 1;
    }
    ok := true;
  }

  /**
   Copies the first `size` elements of `a` into the slots of `list`, one
   slot at a time; the slots from `size` on are left alone.
   */
  method CopyArray(a: array<int>, size: nat, list: array<int>)
    requires size <= a.Length && size <= list.Length
    modifies list
    ensures forall k :: 0 <= k < size ==> list[k] == old(a[k])
    ensures forall k :: size <= k < list.Length ==> list[k] == old(list[k])
  {
    var i := 0;
    while i < size
      invariant 0 <= i <= size
      invariant forall k :: 0 <= k < i ==> list[k] == old(a[k])
      invariant forall k :: i <= k < size ==> a[k] == old(a[k])
      invariant forall k :: i <= k < list.Length ==> list[k] == old(list[k])
    {
      list[i] := a[i];
      i := i + 1;
    }
  }

  /**
   Shape checks and both passes: a buffer that is not two-dimensional or
   not square is rejected before any entry is read; otherwise the result
   is the compressed-row form of its nonzero pattern, or an error when
   some entry does not read.
   */
  method Compress(view: View) returns (r: Result<Compressed>)
    ensures |view.shape| != 2 ==> r == Err(NotTwoDimensional)
    ensures |view.shape| == 2 && view.shape[0] != view.shape[1] ==> r == Err(NotSquare)
    ensures IsSquare(view) && !AllValid(view.at, view.shape[0]) ==> r == Err(BadEntry)
    ensures IsSquare(view) && AllValid(view.at, view.shape[0]) ==>
      && r.Ok?
      && r.value.n == view.shape[0]
      && r.value.ap[..] == RowPointers(view.at, view.shape[0])
      && r.value.ai[..] == Columns(view.at, view.shape[0], view.shape[0])
  {
    if |view.shape| != 2 {
      return Err(NotTwoDimensional);
    }
    var rows, cols := view.shape[0], view.shape[1];
    if rows != cols {
      return Err(NotSquare);
    }
    var n := rows;
    var ok, ap, count := CountRows(view.at, n);
    if !ok {
      return Err(BadEntry);
    }
    var ok2, ai, _, _ := ListColumns(view.at, n, count);
    if !ok2 {
      return Err(BadEntry);
    }
    r := Ok(Compressed(n, ap, ai));
  }

  /**
   The whole extension call. The ordering routine is not part of this
   model: `order(n, Ap, Ai, k)` stands for the value it leaves in P[k].
   On success the result is the list copied from P, of length n.
   */
  method Amd(view: View, order: (nat, seq<int>, seq<int>, nat) -> int) returns (r: Result<seq<int>>)
    ensures |view.shape| != 2 ==> r == Err(NotTwoDimensional)
    ensures |view.shape| == 2 && view.shape[0] != view.shape[1] ==> r == Err(NotSquare)
    ensures IsSquare(view) && !AllValid(view.at, view.shape[0]) ==> r == Err(BadEntry)
    ensures IsSquare(view) && AllValid(view.at, view.shape[0]) ==>
      var n := view.shape[0];
      && r.Ok?
      && |r.value| == n
      && forall k :: 0 <= k < n ==>
           r.value[k] == order(n, RowPointers(view.at, n), Columns(view.at, n, n), k)
  {
    var c := Compress(view);
    if c.Err? {
      return Err(c.error);
    }
    var n := c.value.n;
    var ap, ai := c.value.ap[..], c.value.ai[..];
    var p := new int[n](_ => 0);  // zero-filled, like PyMem_Calloc
    forall k | 0 <= k < n {
      p[k] := order(n, ap, ai, k);
    }
    var list := new int[n];
    CopyArray(p, n, list);
    r := Ok(list[..]);
  }
}
