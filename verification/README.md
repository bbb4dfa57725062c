# Dense-to-compressed conversion of the `_amd` extension

The `_amd` C extension of this SuiteSparse binding takes a dense square
matrix through the Python buffer protocol and computes an approximate minimum
degree ordering. Before it can call the AMD library's `amd_order`, it has to
validate the buffer's shape and convert the matrix into the compressed-row
arrays that `amd_order` expects:

- `Ap`, the row pointers: `n + 1` entries, where `Ap[i]` is the number of
  nonzeros in the rows before row `i`;
- `Ai`, the column indices: for every nonzero, its column, row by row, left to
  right.

It then copies the permutation that `amd_order` writes into `P` to a Python
list of length `n`. This project models that conversion and the copy, and
proves that the arrays are exactly the compressed-row form of the matrix's
nonzero pattern.

Modules:

- `Pattern` (`pattern.dfy`) holds the data model and the specification.
  - An `Entry` is `Zero`, `Nonzero` or `Invalid`. `Invalid` stands for an
    entry that `read_numeric` rejects: the element format is unsupported, or
    the value is NaN or infinite.
  - A `View` is the buffer's `shape` plus `at(i, j)`, the entry read at row
    `i`, column `j`. The stride arithmetic is folded into `at`.
  - `RowColumns`, `Columns` and `RowPointers` define the expected `Ai` and
    `Ap`. The lemmas state their properties against an independent
    set-of-nonzero-columns definition.
- `AmdExtension` (`amd_extension.dfy`) models the imperative code of `_amd.c`.
  - `CountRows` is the first pass. It allocates `Ap`, keeps a running `count`
    over two nested loops, and stores `Ap[i + 1]`.
  - `ListColumns` is the second pass. It allocates `Ai` with `count` slots and
    writes `Ai[index++]`, leaving both loops early once `index >= count`.
  - `CopyArray` is `copy_array`.
  - `Compress` covers the shape checks and both passes.
  - `Amd` is the whole extension call.
- `Regression` (`regression.dfy`) works out `Ap` and `Ai` for the 4-by-4
  matrix used by the regression tests.

The ordering itself (`amd_order`) is not part of this model. `Amd` takes it as
a parameter: `order(n, Ap, Ai, k)` is the value the routine leaves in `P[k]`.

The conversion passes the pattern through unchanged. Diagonal entries are
kept (`RowPattern`, `ArrowCompressed`), and so is an entry whose mirror entry
is zero (`RowPattern`, `CornerCompressed`). `_amd.c` itself neither
symmetrises the pattern nor drops the diagonal, and neither does the model.

## Model

| member | source | states |
|---|---|---|
| `Pattern.RowPointers` | _amd.c:86-91 | `Ap` has `n + 1` entries and `Ap[0] = 0` |
| `Pattern.RowColumnsSpec` | _amd.c:119-131 | scanning row `i` up to column `k` lists exactly the columns `j < k` whose entry is nonzero, each once, in strictly increasing order |
| `Pattern.ColumnsRange` | _amd.c:129-131 | every column index written to `Ai` lies in `[0, n)` |
| `Pattern.RowCount` | _amd.c:93-106 | the number of nonzeros counted in row `i` equals the size of the set of nonzero columns of that row |
| `Pattern.RowPointersStep` | _amd.c:93-109 | `Ap[i + 1] - Ap[i]` is the number of nonzero entries in row `i` |
| `Pattern.RowPointersMonotone` | _amd.c:93-109 | `Ap` never decreases, and `Ap[n]` equals the total number of column indices, i.e. `count` |
| `Pattern.ScanPrefix` | _amd.c:117-137 | what the second pass has written when it reaches row `i`, column `k` is a prefix of the final `Ai`, so `index` never passes `count` |
| `Pattern.ScanStep` | _amd.c:129-131 | reading entry `(i, j)` appends `j` exactly when the entry is nonzero, and a scan that has written `count` indices has written all of `Ai` |
| `Pattern.NonzerosBeforeMonotone` | _amd.c:117-137 | a row-major scan has met no fewer nonzeros at a later position |
| `Pattern.LastNonzero` | _amd.c:133-135 | a nonzero preceded by `count - 1` nonzeros is the last one: no later entry is nonzero, so the early exit loses nothing |
| `Pattern.RowSlice` | _amd.c:108-130 | `Ai[Ap[i] .. Ap[i + 1]]` is exactly the increasing list of the nonzero columns of row `i` |
| `Pattern.RowPattern` | _amd.c:93-137 | reading `Ap`/`Ai` back gives the input pattern: `j` is listed for row `i` iff entry `(i, j)` is nonzero, diagonal and unmirrored entries included |
| `Pattern.ColumnsLength` | _amd.c:93-109 | the first `i` rows contribute at most `i * n` column indices |
| `Pattern.Int32Range` | _amd.c:80-83 | when `n` and the number of nonzeros are below `2^31`, every `Ap` and `Ai` value fits the `int32_t` arrays (and `Ap[n]` is that number, so the bound is needed) |
| `Pattern.Int32Sufficient` | _amd.c:80-83 | `n * n < 2^31` is a sufficient condition for `Int32Range`, since the matrix has at most `n * n` nonzeros |
| `AmdExtension.CountRows` | _amd.c:86-109 | first pass: succeeds iff no entry is `Invalid`; on success `Ap` has `n + 1` entries equal to the row pointers and `count` is the total number of nonzeros |
| `AmdExtension.ListColumns` | _amd.c:111-137 | second pass: `Ai` has exactly `count` slots and on success holds the column indices. It stops at the last nonzero, or at the first entry read when `count = 0`. Every entry read before the stop was valid, and it fails exactly when the last entry read is `Invalid` |
| `AmdExtension.CopyArray` | _amd.c:40-52 | slot `k < size` of the list receives `array[k]`, and the other slots are untouched |
| `AmdExtension.Compress` | _amd.c:66-137 | not 2-D → `NotTwoDimensional`; rows ≠ cols → `NotSquare`, whatever the entries; any `Invalid` entry → `BadEntry`; otherwise `n`, `Ap` and `Ai` are the compressed-row form of the pattern |
| `AmdExtension.Amd` | _amd.c:54-217 | the same three errors, with no permutation. Otherwise the result has exactly `n` elements, and element `k` is what the ordering produced for slot `k` from the compressed-row arrays |
| `Regression.ArrowAtReadsArrow` | tests/test_amd.py:224-227 | the entry function of the example is nonzero exactly where the literal matrix is |
| `Regression.ArrowCompressed` | tests/test_amd.py:223-227 | for the 4-by-4 arrow matrix, `Ap = [0, 4, 6, 8, 10]` and `Ai = [0, 1, 2, 3, 0, 1, 0, 2, 0, 3]` |
| `Regression.CornerAtReadsCorner` | _amd.c:117-131 | the entry function of the 2-by-2 example `[[0, 1], [0, 0]]` is nonzero exactly where the literal matrix is |
| `Regression.CornerCompressed` | _amd.c:117-131 | for `[[0, 1], [0, 0]]`, `Ap = [0, 1, 1]` and `Ai = [1]`: entry `(0, 1)` is listed although its mirror `(1, 0)` is zero |

## Left out

- The ordering is not modelled: `amd_order`, `amd_defaults`, `amd_control`,
  `amd_info`, `amd_version` and the ignored return status (_amd.c:141-172).
  They are compiled from SuiteSparse sources that are not part of this model.
  `Amd` takes what `amd_order` writes into `P` as a parameter, so the
  regression orderings in the tests cannot be derived here.
- `read_numeric`'s dispatch over element formats, its conversion to `double`
  and its `isfinite` check (_amd.c:8-38) are floating point and pointer
  reinterpretation. Each entry is abstracted to `Zero`, `Nonzero` or
  `Invalid`. A negative zero reads as `Zero`, since it compares equal to 0.
- The buffer protocol and strides (_amd.c:58-64, 95-96, 121-122) are
  abstracted into `View.at`.
- Allocation failures are left out: `PyMem_Calloc` returning NULL, `PyList_New`
  failing, and `PyLong_FromLong` failing inside `copy_array` (_amd.c:44-46).
  The model always allocates.
- The frees, reference counting, the leak of `Ap` and `Ai` on the failure
  path, and module registration (_amd.c:201-235) are left out.
- Integer widths are not modelled. The casts `n = (int32_t) rows` and
  `(int32_t) j`, and a `count` that would overflow `int32_t` beyond
  2^31 - 1 nonzeros, use unbounded integers here. `Int32Range` gives the range
  (`n` and the number of nonzeros below `2^31`) in which the model and the
  `int32_t` arrays agree; `Int32Sufficient` shows that `n * n < 2^31` is enough.
- `CopyArray` models the Python list as an integer array. Creating the
  `PyLong` objects is not modelled.
- The `Invalid` check in the second pass (_amd.c:124-127) is modelled in
  `ListColumns`. Within `Compress` it can never fire, because the first pass
  has already read every entry. `Compress` proves this.
- The Python-level wrapper (list input, `dense_permutation`, the
  `RuntimeWarning` for non-numeric entries and the `TypeError` cases) is not
  part of this model. So are `demo.py` and `setup.py`.
