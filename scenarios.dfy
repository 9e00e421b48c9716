/** A worked example, as facts about the model: a 2x2 matrix A with the
    identity B, and a file with a malformed data line. */
module Scenarios {
  import opened Wrappers
  import opened Entries
  import opened PyText
  import opened TextFormat
  import opened Sparse

  /** A = [[1, 2], [3, 4]] */
  function MatrixA(): (a: Entries)
    ensures NoZeros(a)
  {
    map[(0, 0) := 1, (0, 1) := 2, (1, 0) := 3, (1, 1) := 4]
  }

  /** B = [[1, 0], [0, 1]], the 2x2 identity. */
  function MatrixB(): (b: Entries)
    ensures b == Identity(2)
  {
    map[(0, 0) := 1, (1, 1) := 1]
  }

  /** A + B = [[2, 2], [3, 5]]. */
  lemma AddIdentityExample()
    ensures Sum(MatrixA(), MatrixB()) == map[(0, 0) := 2, (0, 1) := 2, (1, 0) := 3, (1, 1) := 5]
  {
    var expected := map[(0, 0) := 2, (0, 1) := 2, (1, 0) := 3, (1, 1) := 5];
    LookupDetermines(Sum(MatrixA(), MatrixB()), expected);
  }

  /** A * B = A. */
  lemma MultiplyIdentityExample()
    ensures Product(MatrixA(), MatrixB()) == MatrixA()
  {
    ProductIdentity(MatrixA(), 2);
  }

  /** A - A has no entries. */
  lemma SubtractSelfExample()
    ensures Difference(MatrixA(), MatrixA()) == map[]
  {
    DifferenceSelf(MatrixA());
  }

  /** A file whose data line (1,2) lacks the value is a FormatError; the line
      is not skipped. */
  lemma MissingValueExample()
    ensures ParseMatrix(["rows=2", "cols=2", "(1,2)"]) == Err(FormatError)
  {
    var line := "(1,2)";
    assert Strip(line, IsSpace) == line by {
      StripPadded([], line, [], IsSpace);
      assert [] + line + [] == line;
    }
    assert Strip(line, IsParen) == "1,2" by {
      StripPadded("(", "1,2", ")", IsParen);
      assert "(" + "1,2" + ")" == line;
    }
    assert Split("1,2", ',') == ["1", "2"] by {
      SplitAt("1", ',', "2");
      SplitWithout("2", ',');
      assert "1" + [','] + "2" == "1,2";
    }
    MalformedLineFails(["rows=2", "cols=2", line], 2);
  }

  /** add then subtract the same matrix gives back the first operand's
      entries, on matrices that keep the storage invariant. */
  method AddThenSubtract(a: SparseMatrix, b: SparseMatrix) returns (res: Result<SparseMatrix>)
    requires a.Valid()
    ensures res.Err? <==> (a.rows != b.rows || a.cols != b.cols)
    ensures res.Ok? ==> res.value.rows == a.rows && res.value.cols == a.cols
    ensures res.Ok? ==> res.value.elements == a.elements
  {
    var sum := a.Add(b);
    if sum.Err? {
      return sum;
    }
    res := sum.value.Subtract(b);
    DifferenceOfSum(a.elements, b.elements);
  }

  /** Multiplying by a matrix with no entries gives a matrix with no entries. */
  method MultiplyByEmpty(a: SparseMatrix, cols: int) returns (res: Result<SparseMatrix>)
    ensures res.Ok? && res.value.rows == a.rows && res.value.cols == cols
    ensures res.Ok? ==> res.value.elements == map[]
  {
    var zero := new SparseMatrix(a.cols, cols);
    res := a.Multiply(zero);
    ProductWithEmpty(a.elements);
  }

  /** Loading what save_result writes gives back the same dimensions and the
      same entries. */
  method SaveThenLoad(m: SparseMatrix) returns (res: Result<SparseMatrix>)
    requires m.Valid()
    ensures res.Ok?
    ensures res.value.rows == m.rows && res.value.cols == m.cols
    ensures res.value.elements == m.elements
  {
    var content, order := m.SaveLines();
    SaveLoadRoundTrip(m.rows, m.cols, m.elements, order);
    res := SparseMatrix.Load(content);
  }
}
