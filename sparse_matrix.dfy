/** The SparseMatrix class: the declared dimensions and a dictionary holding
    only the non-zero entries, updated in place by set_element; add, subtract
    and multiply each build their result in a freshly constructed matrix. */
module Sparse {
  import opened Wrappers
  import opened Entries
  import opened PyText
  import opened TextFormat

  class SparseMatrix {
    var rows: int
    var cols: int
    var elements: map<Coord, int>

    /** The storage invariant: no zero value is stored. */
    ghost predicate Valid()
      reads this
    {
      NoZeros(elements)
    }

    /** SparseMatrix(rows, cols): an empty matrix of the given dimensions. */
    constructor (rows: int, cols: int)
      ensures this.rows == rows && this.cols == cols
      ensures elements == map[] && Valid()
    {
      this.rows := rows;
      this.cols := cols;
      elements := map[];
    }

    /** get_element: the stored value, or 0 when the coordinate is absent; any
        coordinate may be asked, inside the declared bounds or not. */
    function GetElement(r: int, c: int): (v: int)
      reads this
      ensures (r, c) in elements ==> v == elements[(r, c)]
      ensures (r, c) !in elements ==> v == 0
      ensures Valid() ==> (v != 0 <==> (r, c) in elements)
    {
      Lookup(elements, r, c)
    }

    /** set_element: a non-zero value is stored, a zero value pops the
        coordinate (nothing happens if it is absent); other entries and the
        dimensions stay as they were. */
    method SetElement(r: int, c: int, v: int)
      modifies this
      ensures rows == old(rows) && cols == old(cols)
      ensures elements == Store(old(elements), r, c, v)
      ensures GetElement(r, c) == v
      ensures old(Valid()) ==> Valid()
    {
      if v != 0 {
        elements := elements[(r, c) := v];
      } else {
        elements := elements - {(r, c)};
      }
    }

    /** A fresh matrix holding a verbatim copy of this matrix's entries. */
    method CopyInto(result: SparseMatrix)
      requires result != this
      modifies result
      ensures result.rows == old(result.rows) && result.cols == old(result.cols)
      ensures result.elements == elements
    {
      result.elements := map[];
      var todo := elements.Keys;
      while todo != {}
        invariant todo <= elements.Keys
        invariant result.rows == old(result.rows) && result.cols == old(result.cols)
        invariant result.elements.Keys == elements.Keys - todo
        invariant forall k :: k in result.elements ==> result.elements[k] == elements[k]
        decreases todo
      {
        var k :| k in todo;
        result.elements := result.elements[k := elements[k]];
        todo := todo - {k};
      }
    }

    /** add: a dimension mismatch is an error; otherwise every lookup in the
        result is the sum of the two lookups, and the operands are untouched. */
    method Add(other: SparseMatrix) returns (res: Result<SparseMatrix>)
      ensures res.Err? <==> (cols != other.cols || rows != other.rows)
      ensures res.Err? ==> res.error == DimensionMismatch
      ensures res.Ok? ==> fresh(res.value) && res.value.rows == rows && res.value.cols == cols
      ensures res.Ok? ==> forall r, c :: res.value.GetElement(r, c) == GetElement(r, c) + other.GetElement(r, c)
      ensures res.Ok? && Valid() ==> res.value.Valid() && res.value.elements == Sum(elements, other.elements)
    {
      if cols != other.cols || rows != other.rows {
        return Err(DimensionMismatch);
      }
      var result := new SparseMatrix(rows, cols);
      CopyInto(result);
      var pending := other.elements.Keys;
      while pending != {}
        invariant pending <= other.elements.Keys
        invariant result.rows == rows && result.cols == cols
        invariant forall r, c :: (Lookup(result.elements, r, c) == Lookup(elements, r, c)
          + (if (r, c) in other.elements && (r, c) !in pending then other.elements[(r, c)] else 0))
        invariant Valid() ==> result.Valid()
        decreases pending
      {
        var k :| k in pending;
        var newValue := result.GetElement(k.0, k.1) + other.elements[k];
        result.SetElement(k.0, k.1, newValue);
        pending := pending - {k};
      }
      if Valid() {
        LookupDetermines(result.elements, Sum(elements, other.elements));
      }
      res := Ok(result);
    }

    /** subtract: a dimension mismatch is an error; otherwise every lookup in
        the result is the difference of the two lookups. */
    method Subtract(other: SparseMatrix) returns (res: Result<SparseMatrix>)
      ensures res.Err? <==> (rows != other.rows || cols != other.cols)
      ensures res.Err? ==> res.error == DimensionMismatch
      ensures res.Ok? ==> fresh(res.value) && res.value.rows == rows && res.value.cols == cols
      ensures res.Ok? ==> forall r, c :: res.value.GetElement(r, c) == GetElement(r, c) - other.GetElement(r, c)
      ensures res.Ok? && Valid() ==> res.value.Valid() && res.value.elements == Difference(elements, other.elements)
    {
      if rows != other.rows || cols != other.cols {
        return Err(DimensionMismatch);
      }
      var result := new SparseMatrix(rows, cols);
      CopyInto(result);
      var pending := other.elements.Keys;
      while pending != {}
        invariant pending <= other.elements.Keys
        invariant result.rows == rows && result.cols == cols
        invariant forall r, c :: (Lookup(result.elements, r, c) == Lookup(elements, r, c)
          - (if (r, c) in other.elements && (r, c) !in pending then other.elements[(r, c)] else 0))
        invariant Valid() ==> result.Valid()
        decreases pending
      {
        var k :| k in pending;
        var newValue := result.GetElement(k.0, k.1) - other.elements[k];
        result.SetElement(k.0, k.1, newValue);
        pending := pending - {k};
      }
      if Valid() {
        LookupDetermines(result.elements, Difference(elements, other.elements));
      }
      res := Ok(result);
    }

    /** multiply: the inner dimensions must agree; the result is
        rows x other.cols and holds the matrix product, accumulated pair of
        stored entries by pair of stored entries. */
    method Multiply(other: SparseMatrix) returns (res: Result<SparseMatrix>)
      ensures res.Err? <==> cols != other.rows
      ensures res.Err? ==> res.error == DimensionMismatch
      ensures res.Ok? ==> fresh(res.value) && res.value.rows == rows && res.value.cols == other.cols
      ensures res.Ok? ==> res.value.Valid() && res.value.elements == Product(elements, other.elements)
    {
      if cols != other.rows {
        return Err(DimensionMismatch);
      }
      var result := new SparseMatrix(rows, other.cols);
      // a and b are the two operands' entries, which nothing here changes
      var a, b := elements, other.elements;
      var todo := a.Keys;
      ghost var done: set<Coord> := {};
      while todo != {}
        invariant todo <= a.Keys && done == a.Keys - todo
        invariant result.rows == rows && result.cols == other.cols
        invariant result.Valid()
        invariant forall i, j :: Lookup(result.elements, i, j) == DotOver(a, b, i, j, done)
        decreases todo
      {
        var p :| p in todo;
        var v1 := a[p];
        var inner := b.Keys;
        while inner != {}
          invariant inner <= b.Keys
          invariant result.rows == rows && result.cols == other.cols
          invariant result.Valid()
          invariant forall i, j :: (Lookup(result.elements, i, j) == DotOver(a, b, i, j, done)
            + (if i == p.0 && (p.1, j) in b && (p.1, j) !in inner then v1 * b[(p.1, j)] else 0))
          decreases inner
        {
          var q :| q in inner;
          if p.1 == q.0 {
            var newValue := result.GetElement(p.0, q.1) + v1 * b[q];
            result.SetElement(p.0, q.1, newValue);
          }
          inner := inner - {q};
        }
        forall i, j ensures DotOver(a, b, i, j, done + {p}) == Term(a, b, i, j, p) + DotOver(a, b, i, j, done) {
          DotOverRemove(a, b, i, j, done + {p}, p);
          assert done + {p} - {p} == done;
        }
        todo := todo - {p};
        done := done + {p};
      }
      assert done == a.Keys;
      ProductLookup(a, b);
      forall i, j ensures Lookup(result.elements, i, j) == Lookup(Product(a, b), i, j) {
        assert Lookup(result.elements, i, j) == DotOver(a, b, i, j, done);
      }
      LookupDetermines(result.elements, Product(a, b));
      res := Ok(result);
    }

    /** The content save_result writes: the two header lines, then one entry
        line per stored entry, in the dictionary's iteration order (returned
        as order, which lists every stored coordinate once and is not
        otherwise specified). */
    method SaveLines() returns (content: seq<string>, order: seq<Coord>)
      ensures Enumerates(order, elements.Keys)
      ensures content == SavedLines(rows, cols, elements, order)
    {
      var entryLines: seq<string> := [];
      order := [];
      var todo := elements.Keys;
      ListingStart(elements.Keys);
      while todo != {}
        invariant Listing(order, todo, elements.Keys)
        invariant entryLines == EntryLines(elements, order)
        decreases todo
      {
        var k :| k in todo;
        ListingStep(order, todo, elements.Keys, k);
        EntryLinesSnoc(elements, order, k);
        entryLines := entryLines + [EntryLine(k, elements[k])];
        order := order + [k];
        todo := todo - {k};
      }
      ListingDone(order, elements.Keys);
      content := [HeaderLine("rows", rows), HeaderLine("cols", cols)] + entryLines;
    }

    /** The loop of load_matrix over the data lines, on a matrix that has no
        entries yet: blank lines are skipped, every other line must be
        `(row, col, value)` and goes through set_element; the first malformed
        line stops the reading (ok is false). */
    method ReadEntries(data: seq<string>) returns (ok: bool)
      requires elements == map[]
      modifies this
      ensures rows == old(rows) && cols == old(cols)
      ensures ok <==> ApplyLines(data).Some?
      ensures ok ==> ApplyLines(data) == Some(elements)
    {
      var i := 0;
      while i < |data|
        invariant 0 <= i <= |data|
        invariant rows == old(rows) && cols == old(cols)
        invariant ApplyLines(data[..i]) == Some(elements)
        decreases |data| - i
      {
        var line := Strip(data[i], IsSpace);
        if line == [] {
          ReadBlankLine(data, i, elements);
        } else {
          var e := ParseEntry(line);
          if e.None? {
            MalformedDataLine(data, i);
            return false;
          }
          ReadEntryLine(data, i, elements, e.value);
          SetElement(e.value.0, e.value.1, e.value.2);
        }
        i := i + 1;
      }
      assert data[..i] == data;
      return true;
    }

    /** SparseMatrix(path) on the lines of the file: the first two lines give
        rows and cols (the text after '=' read by int()), the rest are read
        by ReadEntries; any failure is a FormatError and no matrix is
        returned. */
    static method Load(lines: seq<string>) returns (res: Result<SparseMatrix>)
      ensures res.Err? ==> ParseMatrix(lines) == Err(res.error)
      ensures res.Ok? ==> fresh(res.value) && res.value.Valid()
      ensures res.Ok? ==> ParseMatrix(lines) == Ok(Parsed(res.value.rows, res.value.cols, res.value.elements))
    {
      if |lines| < 2 {
        return Err(FormatError);
      }
      var rows, cols := ParseHeader(lines[0]), ParseHeader(lines[1]);
      if rows.None? || cols.None? {
        ParseMatrixFails(lines);
        return Err(FormatError);
      }
      var m := new SparseMatrix(rows.value, cols.value);
      var ok := m.ReadEntries(lines[2..]);
      if !ok {
        ParseMatrixFails(lines);
        return Err(FormatError);
      }
      ParseMatrixParts(lines, rows.value, cols.value, m.elements);
      res := Ok(m);
    }
  }
}
