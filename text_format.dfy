/** The line-based text form of a sparse matrix:

      rows=<rows>
      cols=<cols>
      (<row>, <col>, <value>)
      ...

    as save_result writes it and load_matrix reads it, at the level of a
    sequence of lines (reading and writing the file, and splitting its text
    into lines, are outside this model). */
module TextFormat {
  import opened Wrappers
  import opened PyText
  import opened Entries

  /** What a successful load yields: the declared dimensions and the entries. */
  datatype Parsed = Parsed(rows: int, cols: int, elements: Entries)

  /** A header line as save_result writes it: `rows=3`, `cols=4`. */
  function HeaderLine(name: string, n: int): string
  {
    name + "=" + IntToString(n)
  }

  /** An entry line as save_result writes it: `(row, col, value)`. */
  function EntryLine(k: Coord, v: int): string
  {
    "(" + IntToString(k.0) + ", " + IntToString(k.1) + ", " + IntToString(v) + ")"
  }

  /** int(line.split('=')[1]): the text between the first and the second '='
      (or the end of the line) read as an integer; the name before the first
      '=' is not looked at. */
  function ParseHeader(line: string): Option<int>
  {
    var parts := Split(line, '=');
    if |parts| < 2 then None else ParseInt(parts[1])
  }

  /** A data line once surrounding whitespace is gone: every '(' and ')' at
      either end is dropped, the rest must split on ',' into exactly three
      integers. */
  function ParseEntry(t: string): Option<(int, int, int)>
  {
    ParseFields(Split(Strip(t, IsParen), ','))
  }

  /** map(int, fields) unpacked into row, col, value: exactly three fields,
      each an integer. */
  function ParseFields(fields: seq<string>): Option<(int, int, int)>
  {
    if |fields| != 3 then None
    else
      match (ParseInt(fields[0]), ParseInt(fields[1]), ParseInt(fields[2]))
      case (Some(r), Some(c), Some(v)) => Some((r, c, v))
      case _ => None
  }

  /** One data line applied to the entries read so far: a blank line is
      skipped, a well-formed one goes through set_element, anything else is
      an error. */
  function ApplyLine(m: Entries, line: string): Option<Entries>
  {
    var t := Strip(line, IsSpace);
    if t == [] then Some(m)
    else
      match ParseEntry(t)
      case None => None
      case Some(e) => Some(Store(m, e.0, e.1, e.2))
  }

  /** The data lines applied in order, starting from no entries. */
  function ApplyLines(lines: seq<string>): (r: Option<Entries>)
    ensures r.Some? ==> NoZeros(r.value)
    decreases |lines|
  {
    if lines == [] then Some(map[])
    else
      match ApplyLines(lines[..|lines| - 1])
      case None => None
      case Some(m) => ApplyLine(m, lines[|lines| - 1])
  }

  /** load_matrix on the lines of a file: two header lines, then data lines;
      a missing header or any malformed line is a FormatError. */
  function ParseMatrix(lines: seq<string>): (r: Result<Parsed>)
    ensures |lines| < 2 ==> r == Err(FormatError)
    ensures r.Ok? ==> NoZeros(r.value.elements)
  {
    if |lines| < 2 then Err(FormatError)
    else
      match (ParseHeader(lines[0]), ParseHeader(lines[1]), ApplyLines(lines[2..]))
      case (Some(rows), Some(cols), Some(m)) => Ok(Parsed(rows, cols, m))
      case _ => Err(FormatError)
  }

  /** The dictionary key f"{row},{col}" under which an entry is stored in the
      original program. */
  function ElementKey(r: int, c: int): string
  {
    IntToString(r) + "," + IntToString(c)
  }

  /** map(int, key.split(',')) unpacked into row, col: exactly two fields,
      each an integer. */
  function ParseKey(key: string): Option<Coord>
  {
    var parts := Split(key, ',');
    if |parts| != 2 then None
    else
      match (ParseInt(parts[0]), ParseInt(parts[1]))
      case (Some(r), Some(c)) => Some((r, c))
      case _ => None
  }

  /** key.split(',') gives back the two numbers as save_result writes them,
      and int() reads them back: the string keys stand for integer pairs. */
  lemma ElementKeyRoundTrip(r: int, c: int)
    ensures Split(ElementKey(r, c), ',') == [IntToString(r), IntToString(c)]
    ensures ParseKey(ElementKey(r, c)) == Some((r, c))
  {
    var a, b := IntToString(r), IntToString(c);
    IntToStringPlain(r);
    IntToStringPlain(c);
    assert ElementKey(r, c) == a + [','] + b;
    SplitAt(a, ',', b);
    SplitWithout(b, ',');
    ParseIntToString(r);
    ParseIntToString(c);
  }

  /** Distinct coordinates have distinct string keys, so a map keyed by the
      pair holds exactly what the dictionary keyed by the string holds. */
  lemma ElementKeyInjective(r1: int, c1: int, r2: int, c2: int)
    requires ElementKey(r1, c1) == ElementKey(r2, c2)
    ensures r1 == r2 && c1 == c2
  {
    ElementKeyRoundTrip(r1, c1);
    ElementKeyRoundTrip(r2, c2);
  }

  /** ks lists every coordinate of s exactly once (the iteration order of the
      dictionary, which is not otherwise specified). */
  predicate Enumerates(ks: seq<Coord>, s: set<Coord>)
  {
    && (forall i, j :: 0 <= i < j < |ks| ==> ks[i] != ks[j])
    && (forall k :: k in s ==> k in ks)
    && (forall i :: 0 <= i < |ks| ==> ks[i] in s)
  }

  /** Part way through listing s: order holds, once each, exactly the elements
      of s that are no longer in todo. */
  predicate Listing(order: seq<Coord>, todo: set<Coord>, s: set<Coord>)
  {
    && todo <= s
    && (forall i, j :: 0 <= i < j < |order| ==> order[i] != order[j])
    && (forall i :: 0 <= i < |order| ==> order[i] in s && order[i] !in todo)
    && (forall k :: k in s && k !in todo ==> k in order)
  }

  /** Listing starts from nothing listed. */
  lemma ListingStart(s: set<Coord>)
    ensures Listing([], s, s)
  {
  }

  /** Moving one pending element to the end of the listing keeps it a listing. */
  lemma ListingStep(order: seq<Coord>, todo: set<Coord>, s: set<Coord>, k: Coord)
    requires Listing(order, todo, s) && k in todo
    ensures Listing(order + [k], todo - {k}, s)
  {
    var order' := order + [k];
    forall i | 0 <= i < |order'| ensures order'[i] in s && order'[i] !in todo - {k} {
      if i < |order| {
        assert order'[i] == order[i];
      }
    }
    forall k' | k' in s && k' !in todo - {k} ensures k' in order' {
      if k' != k {
        var i :| 0 <= i < |order| && order[i] == k';
        assert order'[i] == k';
      } else {
        assert order'[|order|] == k;
      }
    }
  }

  /** A finished listing enumerates s. */
  lemma ListingDone(order: seq<Coord>, s: set<Coord>)
    requires Listing(order, {}, s)
    ensures Enumerates(order, s)
  {
  }

  /** One entry line per coordinate of ks, in that order. */
  function EntryLines(m: Entries, ks: seq<Coord>): (lines: seq<string>)
    requires forall i :: 0 <= i < |ks| ==> ks[i] in m
    ensures |lines| == |ks|
    decreases |ks|
  {
    if ks == [] then []
    else EntryLines(m, ks[..|ks| - 1]) + [EntryLine(ks[|ks| - 1], m[ks[|ks| - 1]])]
  }

  /** Listing one more coordinate adds its entry line at the end. */
  lemma EntryLinesSnoc(m: Entries, ks: seq<Coord>, k: Coord)
    requires forall i :: 0 <= i < |ks| ==> ks[i] in m
    requires k in m
    ensures EntryLines(m, ks + [k]) == EntryLines(m, ks) + [EntryLine(k, m[k])]
  {
    assert (ks + [k])[..|ks|] == ks;
  }

  /** The content save_result writes, entries in the order ks. */
  function SavedLines(rows: int, cols: int, m: Entries, ks: seq<Coord>): seq<string>
    requires Enumerates(ks, m.Keys)
  {
    [HeaderLine("rows", rows), HeaderLine("cols", cols)] + EntryLines(m, ks)
  }

  /** An enumeration of s is exactly as long as s is large. */
  lemma {:induction false} EnumerationSize(ks: seq<Coord>, s: set<Coord>)
    requires Enumerates(ks, s)
    ensures |ks| == |s|
    decreases |ks|
  {
    if ks != [] {
      var last := ks[|ks| - 1];
      var init := ks[..|ks| - 1];
      assert last !in init by {
        forall i | 0 <= i < |init| ensures init[i] != last {
          assert init[i] == ks[i];
        }
      }
      forall k ensures k in s - {last} <==> k in init {
        if k in ks && k != last {
          var i :| 0 <= i < |ks| && ks[i] == k;
          assert init[i] == k;
        }
      }
      EnumerationSize(init, s - {last});
    }
  }

  /** The digits of a number contain none of the format's separators. */
  lemma IntToStringPlain(n: int)
    ensures '=' !in IntToString(n) && ',' !in IntToString(n)
    ensures !IsSpace(IntToString(n)[0]) && !IsParen(IntToString(n)[0])
    ensures !IsSpace(IntToString(n)[|IntToString(n)| - 1])
    ensures !IsParen(IntToString(n)[|IntToString(n)| - 1])
  {
    var s := IntToString(n);
    IntToStringShape(n);
    assert forall i :: 0 <= i < |s| ==> IsDigit(s[i]) || s[i] == '-';
  }

  /** A header written by save_result reads back as its number. */
  lemma HeaderRoundTrip(name: string, n: int)
    requires '=' !in name
    ensures ParseHeader(HeaderLine(name, n)) == Some(n)
  {
    var s := IntToString(n);
    IntToStringPlain(n);
    SplitAt(name, '=', s);
    SplitWithout(s, '=');
    ParseIntToString(n);
  }

  /** The three fields of an entry line, after its parentheses are gone. */
  lemma EntryFields(r: int, c: int, v: int)
    ensures Split(IntToString(r) + ", " + IntToString(c) + ", " + IntToString(v), ',')
         == [IntToString(r), " " + IntToString(c), " " + IntToString(v)]
  {
    var a, b, d := IntToString(r), IntToString(c), IntToString(v);
    IntToStringPlain(r);
    IntToStringPlain(c);
    IntToStringPlain(v);
    var tail := " " + d;
    var rest := " " + b + [','] + tail;
    assert a + ", " + b + ", " + d == a + [','] + rest;
    SplitAt(a, ',', rest);
    assert ',' !in " " + b;
    SplitAt(" " + b, ',', tail);
    assert ',' !in tail;
    SplitWithout(tail, ',');
  }

  /** A parenthesised text whose own ends are neither blanks nor parentheses
      loses nothing to strip() and exactly its parentheses to strip('()'). */
  lemma ParenthesesStrip(inner: string)
    requires |inner| > 0
    requires !IsSpace(inner[0]) && !IsParen(inner[0])
    requires !IsSpace(inner[|inner| - 1]) && !IsParen(inner[|inner| - 1])
    ensures Strip("(" + inner + ")", IsSpace) == "(" + inner + ")"
    ensures Strip("(" + inner + ")", IsParen) == inner
  {
    var line := "(" + inner + ")";
    assert line[0] == '(' && line[|line| - 1] == ')';
    StripPadded([], line, [], IsSpace);
    assert [] + line + [] == line;
    StripPadded("(", inner, ")", IsParen);
  }

  /** An entry line has no whitespace to strip, and stripping its parentheses
      leaves the three fields. */
  lemma EntryLineStrips(k: Coord, v: int)
    ensures Strip(EntryLine(k, v), IsSpace) == EntryLine(k, v)
    ensures Strip(EntryLine(k, v), IsParen)
         == IntToString(k.0) + ", " + IntToString(k.1) + ", " + IntToString(v)
  {
    var a, b, d := IntToString(k.0), IntToString(k.1), IntToString(v);
    IntToStringPlain(k.0);
    IntToStringPlain(v);
    var inner := a + ", " + b + ", " + d;
    assert EntryLine(k, v) == "(" + inner + ")";
    assert inner[0] == a[0] && inner[|inner| - 1] == d[|d| - 1];
    ParenthesesStrip(inner);
  }

  /** The three fields of an entry line read back as its numbers. */
  lemma FieldsRoundTrip(r: int, c: int, v: int)
    ensures ParseFields([IntToString(r), " " + IntToString(c), " " + IntToString(v)]) == Some((r, c, v))
  {
    ParseIntToString(r);
    ParseBlankIntToString(c);
    ParseBlankIntToString(v);
  }

  /** An entry line written by save_result reads back as its coordinate and value. */
  lemma EntryRoundTrip(k: Coord, v: int)
    ensures Strip(EntryLine(k, v), IsSpace) == EntryLine(k, v)
    ensures ParseEntry(EntryLine(k, v)) == Some((k.0, k.1, v))
  {
    EntryLineStrips(k, v);
    EntryFields(k.0, k.1, v);
    FieldsRoundTrip(k.0, k.1, v);
  }

  /** The entries of m at the coordinates listed in ks. */
  function Restrict(m: Entries, ks: seq<Coord>): Entries
  {
    map k | k in m && k in ks :: m[k]
  }

  /** Listing one more coordinate of m adds its entry. */
  lemma RestrictSnoc(m: Entries, ks: seq<Coord>)
    requires ks != [] && NoZeros(m) && ks[|ks| - 1] in m
    ensures Store(Restrict(m, ks[..|ks| - 1]), ks[|ks| - 1].0, ks[|ks| - 1].1, m[ks[|ks| - 1]])
         == Restrict(m, ks)
  {
    var init, last := ks[..|ks| - 1], ks[|ks| - 1];
    assert ks == init + [last];
    forall k ensures k in ks <==> k in init || k == last {
      if k in ks && k != last {
        var i :| 0 <= i < |ks| && ks[i] == k;
        assert init[i] == k;
      }
    }
  }

  /** Reading one more line continues from the entries read so far. */
  lemma ApplyLinesSnoc(lines: seq<string>, line: string, prev: Entries)
    requires ApplyLines(lines) == Some(prev)
    ensures ApplyLines(lines + [line]) == ApplyLine(prev, line)
  {
    assert (lines + [line])[..|lines|] == lines;
  }

  /** Reading the lines up to and including line i continues from the entries
      read from the lines before it. */
  lemma ApplyLinesNext(lines: seq<string>, i: int, prev: Entries)
    requires 0 <= i < |lines| && ApplyLines(lines[..i]) == Some(prev)
    ensures ApplyLines(lines[..i + 1]) == ApplyLine(prev, lines[i])
  {
    assert lines[..i + 1][..i] == lines[..i];
  }

  /** A blank data line (whitespace only) is skipped. */
  lemma ReadBlankLine(data: seq<string>, i: int, prev: Entries)
    requires 0 <= i < |data| && ApplyLines(data[..i]) == Some(prev)
    requires Strip(data[i], IsSpace) == []
    ensures ApplyLines(data[..i + 1]) == Some(prev)
  {
    ApplyLinesNext(data, i, prev);
  }

  /** A well-formed data line goes through set_element. */
  lemma ReadEntryLine(data: seq<string>, i: int, prev: Entries, e: (int, int, int))
    requires 0 <= i < |data| && ApplyLines(data[..i]) == Some(prev)
    requires Strip(data[i], IsSpace) != [] && ParseEntry(Strip(data[i], IsSpace)) == Some(e)
    ensures ApplyLines(data[..i + 1]) == Some(Store(prev, e.0, e.1, e.2))
  {
    ApplyLinesNext(data, i, prev);
  }

  /** Once the lines read so far have failed, no later line repairs the load. */
  lemma {:induction false} ApplyLinesFailure(lines: seq<string>, n: nat)
    requires n <= |lines| && ApplyLines(lines[..n]) == None
    ensures ApplyLines(lines) == None
    decreases |lines|
  {
    if n < |lines| {
      assert lines[..|lines| - 1][..n] == lines[..n];
      ApplyLinesFailure(lines[..|lines| - 1], n);
    } else {
      assert lines[..n] == lines;
    }
  }

  /** A blank line (whitespace only) leaves the entries read so far as they are. */
  lemma BlankLineSkipped(lines: seq<string>, blank: string)
    requires Strip(blank, IsSpace) == []
    ensures ApplyLines(lines + [blank]) == ApplyLines(lines)
  {
    assert (lines + [blank])[..|lines|] == lines;
  }

  /** A line that no entries read so far can get past stops the whole
      sequence of data lines. */
  lemma ApplyLinesBreak(data: seq<string>, k: int)
    requires 0 <= k < |data|
    requires forall m :: ApplyLine(m, data[k]) == None
    ensures ApplyLines(data) == None
  {
    var before := ApplyLines(data[..k]);
    if before.Some? {
      ApplyLinesNext(data, k, before.value);
    } else {
      assert data[..k + 1][..k] == data[..k];
      ApplyLinesFailure(data[..k + 1], k);
    }
    ApplyLinesFailure(data, k + 1);
  }

  /** A non-blank data line that is not `(row, col, value)` stops the
      reading of the data lines, wherever it stands. */
  lemma MalformedDataLine(data: seq<string>, i: int)
    requires 0 <= i < |data|
    requires Strip(data[i], IsSpace) != [] && ParseEntry(Strip(data[i], IsSpace)) == None
    ensures ApplyLines(data) == None
  {
    forall m ensures ApplyLine(m, data[i]) == None {
    }
    ApplyLinesBreak(data, i);
  }

  /** A non-blank data line that is not `(row, col, value)` makes the whole
      load a FormatError, wherever it stands. */
  lemma MalformedLineFails(lines: seq<string>, i: int)
    requires 2 <= i < |lines|
    requires Strip(lines[i], IsSpace) != [] && ParseEntry(Strip(lines[i], IsSpace)) == None
    ensures ParseMatrix(lines) == Err(FormatError)
  {
    assert lines[2..][i - 2] == lines[i];
    MalformedDataLine(lines[2..], i - 2);
  }

  /** An entry line, as save_result writes it, stores its entry. */
  lemma ApplyEntryLine(prev: Entries, k: Coord, v: int)
    ensures ApplyLine(prev, EntryLine(k, v)) == Some(Store(prev, k.0, k.1, v))
  {
    assert EntryLine(k, v)[0] == '(';
    EntryRoundTrip(k, v);
  }

  /** The last entry line stores the last listed entry. */
  lemma ApplyLastEntryLine(m: Entries, ks: seq<Coord>, prev: Entries)
    requires ks != []
    requires forall i :: 0 <= i < |ks| ==> ks[i] in m
    requires ApplyLines(EntryLines(m, ks[..|ks| - 1])) == Some(prev)
    ensures ApplyLines(EntryLines(m, ks)) == Some(Store(prev, ks[|ks| - 1].0, ks[|ks| - 1].1, m[ks[|ks| - 1]]))
  {
    var init, last := ks[..|ks| - 1], ks[|ks| - 1];
    var line := EntryLine(last, m[last]);
    assert EntryLines(m, ks) == EntryLines(m, init) + [line];
    ApplyLinesSnoc(EntryLines(m, init), line, prev);
    ApplyEntryLine(prev, last, m[last]);
  }

  /** Reading the entry lines of coordinates of m rebuilds m on exactly
      those coordinates. */
  lemma {:induction false} ApplyEntryLines(m: Entries, ks: seq<Coord>)
    requires NoZeros(m)
    requires forall i :: 0 <= i < |ks| ==> ks[i] in m
    ensures ApplyLines(EntryLines(m, ks)) == Some(Restrict(m, ks))
    decreases |ks|
  {
    if ks == [] {
      assert Restrict(m, ks) == map[];
    } else {
      var init := ks[..|ks| - 1];
      ApplyEntryLines(m, init);
      ApplyLastEntryLine(m, ks, Restrict(m, init));
      RestrictSnoc(m, ks);
    }
  }

  /** Saving a matrix and loading the saved lines gives back its dimensions and
      its entries, whatever order the entries were written in. */
  lemma SaveLoadRoundTrip(rows: int, cols: int, m: Entries, ks: seq<Coord>)
    requires NoZeros(m) && Enumerates(ks, m.Keys)
    ensures ParseMatrix(SavedLines(rows, cols, m, ks)) == Ok(Parsed(rows, cols, m))
  {
    var lines := SavedLines(rows, cols, m, ks);
    HeaderRoundTrip("rows", rows);
    HeaderRoundTrip("cols", cols);
    ApplyEntryLines(m, ks);
    assert Restrict(m, ks) == m;
    ParseMatrixParts(lines, rows, cols, m);
  }

  /** load_matrix succeeds exactly when both headers and all data lines do. */
  lemma ParseMatrixParts(lines: seq<string>, rows: int, cols: int, m: Entries)
    requires |lines| >= 2
    requires ParseHeader(lines[0]) == Some(rows) && ParseHeader(lines[1]) == Some(cols)
    requires ApplyLines(lines[2..]) == Some(m)
    ensures ParseMatrix(lines) == Ok(Parsed(rows, cols, m))
  {
  }

  /** A header line without an integer after its '=', or a data section
      that fails, is a FormatError. */
  lemma ParseMatrixFails(lines: seq<string>)
    requires |lines| >= 2
    requires ParseHeader(lines[0]).None? || ParseHeader(lines[1]).None? || ApplyLines(lines[2..]).None?
    ensures ParseMatrix(lines) == Err(FormatError)
  {
  }

  /** save_result writes the two headers and exactly one line per stored entry. */
  lemma SavedLineCount(rows: int, cols: int, m: Entries, ks: seq<Coord>)
    requires Enumerates(ks, m.Keys)
    ensures |SavedLines(rows, cols, m, ks)| == 2 + |m|
  {
    EnumerationSize(ks, m.Keys);
  }
}
