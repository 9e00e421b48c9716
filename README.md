# Sparse matrix — a verified Dafny model

This project models the `SparseMatrix` class of `dsa/sparce_matrix/code/src/sparcematrix.py`.
The class stores a matrix of integers as its declared dimensions (`rows`, `cols`)
plus a dictionary holding only the non-zero entries, keyed by coordinate. It offers:

- element lookup and update: `get_element`, `set_element`;
- three operations that each build a freshly constructed result: `add`, `subtract`, `multiply`;
- a line-based text form, written by `save_result` and read by `load_matrix`.

The text form is

```
rows=<rows>
cols=<cols>
(<row>, <col>, <value>)
...
```

Modules:

- `Wrappers`: `Option`, `Result` and the two error kinds (`DimensionMismatch`, `FormatError`).
- `PyText`: the Python string operations the text form depends on:
  - `str.strip()` and `str.strip('()')`: `Strip` with a character predicate;
  - `str.split(sep)`: `Split`;
  - `int()` on a string: `ParseInt`;
  - `str()` on an integer: `IntToString`.
- `Entries`: the stored entries as a value, `map<(int, int), int>`, with the meaning of
  get, set, sum, difference and matrix product on such maps.
- `TextFormat`: the lines `save_result` writes and the way `load_matrix` reads them back.
- `Sparse`: `class SparseMatrix`. It has the fields `rows`, `cols` and `elements`. Its methods
  update them in place and loop the way the source does; each is proved against the
  functions of `Entries` and `TextFormat`.
- `Scenarios`: a worked example (a 2×2 matrix and the identity), a file with
  a malformed line, and client methods that chain the class's methods.

The storage invariant "no stored value is zero" is `Entries.NoZeros`; on the class it is
`SparseMatrix.Valid()`.

The model follows the code in three places where a reader might expect stricter checking:

- A header line is read as `int(line.split('=')[1])`. The text before the first `=` is
  never checked, text after a second `=` is ignored, and a negative count is accepted.
- `strip('()')` removes any number of parentheses at either end, so `((1,2,3)`
  and `1,2,3` are both accepted as data lines.
- The declared dimensions are never checked against entry coordinates, neither
  on load nor on `set_element`.

## Model

| member | source | states |
|---|---|---|
| Sparse.SparseMatrix.constructor | dsa/sparce_matrix/code/src/sparcematrix.py:5-12 | a new matrix has the given rows and cols and no entries |
| Sparse.SparseMatrix.GetElement | dsa/sparce_matrix/code/src/sparcematrix.py:34-35 | the stored value for a present coordinate, 0 for an absent one, for any coordinate; with the invariant, non-zero exactly when present |
| Sparse.SparseMatrix.SetElement | dsa/sparce_matrix/code/src/sparcematrix.py:37-41 | the new entries are `Store` of the old ones; get returns the value just set; dimensions unchanged; the no-zero invariant is preserved |
| Sparse.SparseMatrix.CopyInto | dsa/sparce_matrix/code/src/sparcematrix.py:49-50 | after the key-by-key copy the result's entries equal this matrix's entries |
| Sparse.SparseMatrix.Add | dsa/sparce_matrix/code/src/sparcematrix.py:43-57 | DimensionMismatch exactly when rows or cols differ; otherwise a fresh matrix of the same dimensions whose every lookup is the sum of the two lookups, and which equals `Sum` and keeps the invariant when this matrix keeps it |
| Sparse.SparseMatrix.Subtract | dsa/sparce_matrix/code/src/sparcematrix.py:59-73 | DimensionMismatch exactly when rows or cols differ; otherwise a fresh matrix whose every lookup is the difference of the two lookups, equal to `Difference` when this matrix keeps the invariant |
| Sparse.SparseMatrix.Multiply | dsa/sparce_matrix/code/src/sparcematrix.py:75-89 | DimensionMismatch exactly when `cols != other.rows`; otherwise a fresh `rows × other.cols` matrix whose entries are `Product` of the operands, with no stored zero |
| Sparse.SparseMatrix.SaveLines | dsa/sparce_matrix/code/src/sparcematrix.py:95-98 | the written lines are `rows=`, `cols=`, then one entry line per stored entry, in an order that lists every stored coordinate exactly once |
| Sparse.SparseMatrix.ReadEntries | dsa/sparce_matrix/code/src/sparcematrix.py:22-27 | the data-line loop succeeds exactly when `ApplyLines` does, and then leaves exactly the entries `ApplyLines` yields |
| Sparse.SparseMatrix.Load | dsa/sparce_matrix/code/src/sparcematrix.py:19-27 | fails exactly when `ParseMatrix` fails, with its error; otherwise a fresh matrix with the parsed dimensions and entries that keeps the invariant |
| Entries.Lookup | dsa/sparce_matrix/code/src/sparcematrix.py:34-35 | get on the map: the stored value or 0; with no stored zeros, non-zero exactly when the key is present |
| Entries.Store | dsa/sparce_matrix/code/src/sparcematrix.py:37-41 | set on the map: the new lookup is the value; a zero leaves the key absent; every other key keeps its presence and value; no-zero is preserved |
| Entries.Sum | dsa/sparce_matrix/code/src/sparcematrix.py:49-55 | the entrywise sum: no stored zero, and every lookup is the sum of the operands' lookups |
| Entries.Difference | dsa/sparce_matrix/code/src/sparcematrix.py:65-71 | the entrywise difference: no stored zero, and every lookup is the difference of the operands' lookups |
| Entries.DifferenceOfSum | dsa/sparce_matrix/code/src/sparcematrix.py:43-73 | subtracting B from A + B gives back A exactly |
| Entries.DifferenceSelf | dsa/sparce_matrix/code/src/sparcematrix.py:59-73 | A − A has no entries |
| Entries.DotOverRemove | dsa/sparce_matrix/code/src/sparcematrix.py:81-87 | the accumulated sum of products does not depend on the order in which the entries of self are visited |
| Entries.ProductLookup | dsa/sparce_matrix/code/src/sparcematrix.py:79-89 | the product has no stored zero, and cell (i, j) is the sum over the stored entries (i, k) of self of `self[i,k] * other.get(k, j)` |
| Entries.ProductWithEmpty | dsa/sparce_matrix/code/src/sparcematrix.py:75-89 | multiplying by a matrix with no entries, on either side, gives no entries |
| Entries.ProductIdentity | dsa/sparce_matrix/code/src/sparcematrix.py:75-89 | A times the identity of its column count is A |
| Entries.Identity | dsa/sparce_matrix/code/src/sparcematrix.py:75-89 | the n×n identity: 1 on the diagonal below n, 0 elsewhere, no stored zero |
| PyText.TrimLeftSuffix | dsa/sparce_matrix/code/src/sparcematrix.py:23 | lstrip keeps a suffix, removes only dropped characters, and stops at the first kept one |
| PyText.TrimRightPrefix | dsa/sparce_matrix/code/src/sparcematrix.py:23 | rstrip keeps a prefix, removes only dropped characters, and stops at the last kept one |
| PyText.TrimLeftSkips | dsa/sparce_matrix/code/src/sparcematrix.py:23 | leading characters that strip removes do not change what lstrip keeps |
| PyText.TrimRightSkips | dsa/sparce_matrix/code/src/sparcematrix.py:23 | trailing characters that strip removes do not change what rstrip keeps |
| PyText.StripPadded | dsa/sparce_matrix/code/src/sparcematrix.py:23-26 | a text whose ends are kept, padded with removable characters, strips back to itself |
| PyText.SplitPieces | dsa/sparce_matrix/code/src/sparcematrix.py:26 | no piece of a split contains the separator |
| PyText.SplitWithout | dsa/sparce_matrix/code/src/sparcematrix.py:26 | a text without the separator splits into itself alone |
| PyText.SplitAt | dsa/sparce_matrix/code/src/sparcematrix.py:26 | the first separator ends the first piece |
| PyText.DecimalValueOfNat | dsa/sparce_matrix/code/src/sparcematrix.py:98 | str() of n ≥ 0 is all digits with no leading zero, is a literal int() accepts, and denotes n |
| PyText.IntToStringShape | dsa/sparce_matrix/code/src/sparcematrix.py:98 | str(n) is digits, with a leading '-' exactly when n is negative |
| PyText.ParseIntToString | dsa/sparce_matrix/code/src/sparcematrix.py:19-20 | int(str(n)) == n |
| PyText.ParseBlankIntToString | dsa/sparce_matrix/code/src/sparcematrix.py:26 | int(" " + str(n)) == n: the blank after each comma is ignored |
| TextFormat.ApplyLines | dsa/sparce_matrix/code/src/sparcematrix.py:22-27 | the entries read from the data lines never hold a zero |
| TextFormat.ParseMatrix | dsa/sparce_matrix/code/src/sparcematrix.py:19-27 | fewer than two lines is a FormatError; a successful load holds no zero |
| TextFormat.ElementKeyRoundTrip | dsa/sparce_matrix/code/src/sparcematrix.py:53 | the key `f"{r},{c}"` splits back into str(r) and str(c), and parsing it gives (r, c) |
| TextFormat.ElementKeyInjective | dsa/sparce_matrix/code/src/sparcematrix.py:35-39 | distinct coordinates have distinct string keys, so keying by the pair changes nothing |
| TextFormat.SavedLineCount | dsa/sparce_matrix/code/src/sparcematrix.py:95-98 | save writes exactly two header lines plus one line per stored entry |
| TextFormat.IntToStringPlain | dsa/sparce_matrix/code/src/sparcematrix.py:98 | str(n) holds no '=' or ',' and has no whitespace or parenthesis at either end |
| TextFormat.HeaderRoundTrip | dsa/sparce_matrix/code/src/sparcematrix.py:19-20 | the header line `name=n` that save writes reads back as n |
| TextFormat.EntryFields | dsa/sparce_matrix/code/src/sparcematrix.py:26 | the written entry text splits on ',' into exactly its three numbers (with their blanks) |
| TextFormat.ParenthesesStrip | dsa/sparce_matrix/code/src/sparcematrix.py:23-26 | strip() leaves a parenthesised text alone, and strip('()') removes exactly its parentheses |
| TextFormat.EntryLineStrips | dsa/sparce_matrix/code/src/sparcematrix.py:23-26 | an entry line has nothing to strip(), and strip('()') leaves its three fields |
| TextFormat.FieldsRoundTrip | dsa/sparce_matrix/code/src/sparcematrix.py:26 | the three written fields read back as row, col and value |
| TextFormat.EntryRoundTrip | dsa/sparce_matrix/code/src/sparcematrix.py:23-26 | an entry line reads back as its coordinate and value |
| TextFormat.ReadBlankLine | dsa/sparce_matrix/code/src/sparcematrix.py:23-24 | a line that is blank after strip() leaves the entries as they were |
| TextFormat.ReadEntryLine | dsa/sparce_matrix/code/src/sparcematrix.py:26-27 | a well-formed line goes through set_element |
| TextFormat.BlankLineSkipped | dsa/sparce_matrix/code/src/sparcematrix.py:23-24 | appending a blank line does not change the result of reading |
| TextFormat.ApplyLinesFailure | dsa/sparce_matrix/code/src/sparcematrix.py:22-31 | once reading has failed, no later line repairs it |
| TextFormat.ApplyLinesBreak | dsa/sparce_matrix/code/src/sparcematrix.py:22-31 | a line that fails whatever was read before fails the whole data section |
| TextFormat.MalformedDataLine | dsa/sparce_matrix/code/src/sparcematrix.py:26 | a non-blank line that is not three integers fails the data section |
| TextFormat.MalformedLineFails | dsa/sparce_matrix/code/src/sparcematrix.py:22-31 | a malformed data line anywhere makes the load a FormatError; it is never skipped |
| TextFormat.ApplyEntryLine | dsa/sparce_matrix/code/src/sparcematrix.py:26-27 | an entry line as save writes it stores its entry |
| TextFormat.ApplyEntryLines | dsa/sparce_matrix/code/src/sparcematrix.py:22-27 | reading the written entry lines rebuilds the entries of exactly the listed coordinates |
| TextFormat.SaveLoadRoundTrip | dsa/sparce_matrix/code/src/sparcematrix.py:95-98 | loading what save writes gives the same rows, cols and entries, whatever order the entries were written in |
| TextFormat.ParseMatrixParts | dsa/sparce_matrix/code/src/sparcematrix.py:19-27 | two readable headers and a readable data section make a successful load |
| TextFormat.ParseMatrixFails | dsa/sparce_matrix/code/src/sparcematrix.py:19-31 | an unreadable header or data section is a FormatError |
| Scenarios.AddIdentityExample | dsa/sparce_matrix/code/src/sparcematrix.py:43-57 | [[1,2],[3,4]] + identity = [[2,2],[3,5]] |
| Scenarios.MultiplyIdentityExample | dsa/sparce_matrix/code/src/sparcematrix.py:75-89 | [[1,2],[3,4]] × identity = [[1,2],[3,4]] |
| Scenarios.SubtractSelfExample | dsa/sparce_matrix/code/src/sparcematrix.py:59-73 | [[1,2],[3,4]] − itself has no entries |
| Scenarios.MissingValueExample | dsa/sparce_matrix/code/src/sparcematrix.py:26 | a file `rows=2`, `cols=2`, `(1,2)` is a FormatError |
| Scenarios.AddThenSubtract | dsa/sparce_matrix/code/src/sparcematrix.py:43-73 | `a.add(b).subtract(b)` fails exactly on a dimension mismatch and otherwise has a's dimensions and entries |
| Scenarios.MultiplyByEmpty | dsa/sparce_matrix/code/src/sparcematrix.py:75-89 | multiplying by an empty matrix of matching shape succeeds with no entries |
| Scenarios.SaveThenLoad | dsa/sparce_matrix/code/src/sparcematrix.py:95-98 | loading the lines save_result builds succeeds, with the same dimensions and entries |

## Left out

- File access is not modelled (`open`, `read`, `write`, `os.makedirs`, `os.path`). The model works on the sequence of lines between the file text and the matrix.
- Python's `splitlines()` on the read text and `'\n'.join` on the written content are not modelled.
- The exceptions are reduced to the two error kinds. The `FileNotFoundError` re-raise and the message texts of the `ValueError`s are left out.
- `__str__` is left out: it depends on `json.dumps`, which is not part of this model.
- `main` is left out: it only builds paths, calls the operations and prints.
- The `isinstance` dispatch of `__init__` is not modelled. The dimension form is the constructor, and the path form is `Load`. The `num_cols=None` default, which would leave `cols` as `None`, is not modelled.
- The string keys `f"{r},{c}"` are replaced by integer pairs. `ElementKeyRoundTrip` and `ElementKeyInjective` show that the two hold the same information.
- The dictionary's iteration order is left open. The loops take the remaining keys in any order. `SaveLines` also returns the order it used, and every result except the order of the saved lines is proved not to depend on it.
- PyText.ParseInt: accepts only ASCII decimal digits. The other Unicode decimal digits that Python's `int()` also accepts are not modelled and read as malformed.
- PyText.IsSpace: holds the characters for which Python's `str.isspace()` is true, which `strip()` removes. Python's exact whitespace tables are not part of this model.
- PyText.IsIntSpace: the whitespace `int()` ignores around a number is `IsSpace` without U+001C..U+001F. `strip()` removes those four separators but `int()` does not, so a field such as `"\x1f5"` is malformed.
- Sparse.SparseMatrix.Add: states the closed form `Sum` only when `self` keeps the no-zero invariant, because the source copies `self.elements` verbatim. The pointwise sum is stated unconditionally.
- Sparse.SparseMatrix.Subtract: likewise states `Difference` only when `self` keeps the invariant.
- Sparse.SparseMatrix.ReadEntries: requires an entry-less matrix, which is the state `__init__` leaves before `load_matrix` runs.
- Integers are unbounded, as in Python, so no overflow is modelled.
- PyText.ParseInt: does not model the limit on the number of digits in an int/str conversion (4300 by default from Python 3.11 and in the security releases of 3.7–3.10, configurable through `sys.set_int_max_str_digits`). Under that limit `int()` raises ValueError on a field of more than 4300 digits, which the model reads as a number.
- PyText.IntToString: likewise does not model that limit. Under it `str()` of a value with more than 4300 digits raises ValueError, so `save_result` fails on a header or entry that large (a product can reach one).
- TextFormat.SaveLoadRoundTrip: because of that limit, the round trip it proves holds in Python only when every dimension and value has at most 4300 digits, or when the limit is switched off.
- Scenarios.SaveThenLoad: the same bound applies to the success it promises.
