/** The stored entries of a sparse matrix as a value: a finite map from a
    (row, column) coordinate to an integer, with the closed-form meaning of
    lookup, update, sum, difference and product over such maps. */
module Entries {

  type Coord = (int, int)

  type Entries = map<Coord, int>

  /** The invariant of the storage: no zero value is ever kept. */
  predicate NoZeros(m: Entries)
  {
    forall k :: k in m ==> m[k] != 0
  }

  /** get_element on the map: the stored value, 0 for an absent coordinate;
      never fails, whatever the declared dimensions. */
  function Lookup(m: Entries, r: int, c: int): (v: int)
    ensures (r, c) in m ==> v == m[(r, c)]
    ensures (r, c) !in m ==> v == 0
    ensures NoZeros(m) ==> (v != 0 <==> (r, c) in m)
  {
    if (r, c) in m then m[(r, c)] else 0
  }

  /** set_element on the map: a non-zero value is stored, a zero value removes
      the coordinate; every other coordinate keeps its entry. */
  function Store(m: Entries, r: int, c: int, v: int): (m': Entries)
    ensures Lookup(m', r, c) == v
    ensures v == 0 ==> (r, c) !in m'
    ensures forall k :: k != (r, c) ==> (k in m' <==> k in m)
    ensures forall k :: k != (r, c) && k in m ==> m'[k] == m[k]
    ensures NoZeros(m) ==> NoZeros(m')
  {
    if v != 0 then m[(r, c) := v] else m - {(r, c)}
  }

  /** Two maps without zeros that agree on every lookup are the same map. */
  lemma LookupDetermines(m1: Entries, m2: Entries)
    requires NoZeros(m1) && NoZeros(m2)
    requires forall r, c :: Lookup(m1, r, c) == Lookup(m2, r, c)
    ensures m1 == m2
  {
    forall k | k in m1 ensures k in m2 && m2[k] == m1[k] {
      assert Lookup(m1, k.0, k.1) == Lookup(m2, k.0, k.1);
    }
    forall k | k in m2 ensures k in m1 {
      assert Lookup(m1, k.0, k.1) == Lookup(m2, k.0, k.1);
    }
  }

  /** Entrywise sum, with zero results left out. */
  function Sum(a: Entries, b: Entries): (s: Entries)
    ensures NoZeros(s)
    ensures forall r, c :: Lookup(s, r, c) == Lookup(a, r, c) + Lookup(b, r, c)
  {
    map k | k in a.Keys + b.Keys && Lookup(a, k.0, k.1) + Lookup(b, k.0, k.1) != 0
      :: Lookup(a, k.0, k.1) + Lookup(b, k.0, k.1)
  }

  /** Entrywise difference, with zero results left out. */
  function Difference(a: Entries, b: Entries): (d: Entries)
    ensures NoZeros(d)
    ensures forall r, c :: Lookup(d, r, c) == Lookup(a, r, c) - Lookup(b, r, c)
  {
    map k | k in a.Keys + b.Keys && Lookup(a, k.0, k.1) - Lookup(b, k.0, k.1) != 0
      :: Lookup(a, k.0, k.1) - Lookup(b, k.0, k.1)
  }

  /** Subtracting what was added gives back the original entries. */
  lemma DifferenceOfSum(a: Entries, b: Entries)
    requires NoZeros(a)
    ensures Difference(Sum(a, b), b) == a
  {
    LookupDetermines(Difference(Sum(a, b), b), a);
  }

  /** A matrix minus itself has no entries. */
  lemma DifferenceSelf(a: Entries)
    ensures Difference(a, a) == map[]
  {
    LookupDetermines(Difference(a, a), map[]);
  }

  /** The contribution of the stored entry p of a to cell (i, j) of the
      product a * b: a[p] times the entry of b in row p.1, column j. */
  ghost function Term(a: Entries, b: Entries, i: int, j: int, p: Coord): int
    requires p in a
  {
    if p.0 == i then a[p] * Lookup(b, p.1, j) else 0
  }

  /** The sum of Term over a set of stored entries of a. */
  ghost function DotOver(a: Entries, b: Entries, i: int, j: int, ps: set<Coord>): int
    requires ps <= a.Keys
    decreases ps
  {
    if ps == {} then 0
    else
      var p :| p in ps;
      Term(a, b, i, j, p) + DotOver(a, b, i, j, ps - {p})
  }

  /** The sum does not depend on which entry is taken out first. */
  lemma {:induction false} DotOverRemove(a: Entries, b: Entries, i: int, j: int, ps: set<Coord>, q: Coord)
    requires ps <= a.Keys && q in ps
    ensures DotOver(a, b, i, j, ps) == Term(a, b, i, j, q) + DotOver(a, b, i, j, ps - {q})
    decreases ps
  {
    var p :| p in ps && DotOver(a, b, i, j, ps) == Term(a, b, i, j, p) + DotOver(a, b, i, j, ps - {p});
    if p != q {
      DotOverRemove(a, b, i, j, ps - {p}, q);
      DotOverRemove(a, b, i, j, ps - {q}, p);
      assert ps - {p} - {q} == ps - {q} - {p};
    }
  }

  /** Cell (i, j) of the product: the sum over the stored entries (i, k) of a
      of a[(i, k)] * b[(k, j)]. */
  ghost function ProductAt(a: Entries, b: Entries, i: int, j: int): int
  {
    DotOver(a, b, i, j, a.Keys)
  }

  /** The cells where the product can be non-zero: an entry (i, k) of a meets
      an entry (k, j) of b. */
  ghost function ProductSupport(a: Entries, b: Entries): set<Coord>
  {
    set p, q | p in a.Keys && q in b.Keys && p.1 == q.0 :: (p.0, q.1)
  }

  /** The matrix product, with zero results left out. */
  ghost function Product(a: Entries, b: Entries): Entries
  {
    map k | k in ProductSupport(a, b) && ProductAt(a, b, k.0, k.1) != 0 :: ProductAt(a, b, k.0, k.1)
  }

  /** Outside the support every term is zero. */
  lemma {:induction false} DotOverOutside(a: Entries, b: Entries, i: int, j: int, ps: set<Coord>)
    requires ps <= a.Keys
    requires (i, j) !in ProductSupport(a, b)
    ensures DotOver(a, b, i, j, ps) == 0
    decreases ps
  {
    if ps != {} {
      var p :| p in ps && DotOver(a, b, i, j, ps) == Term(a, b, i, j, p) + DotOver(a, b, i, j, ps - {p});
      assert p.0 == i && (p.1, j) in b ==> (p.0, (p.1, j).1) in ProductSupport(a, b);
      assert Term(a, b, i, j, p) == 0;
      DotOverOutside(a, b, i, j, ps - {p});
    }
  }

  /** Every lookup in the product is the sum over the shared index. */
  lemma ProductLookup(a: Entries, b: Entries)
    ensures NoZeros(Product(a, b))
    ensures forall i, j :: Lookup(Product(a, b), i, j) == ProductAt(a, b, i, j)
  {
    forall i, j ensures Lookup(Product(a, b), i, j) == ProductAt(a, b, i, j) {
      if (i, j) !in ProductSupport(a, b) {
        DotOverOutside(a, b, i, j, a.Keys);
      }
    }
  }

  /** Multiplying by a matrix with no entries, on either side, gives no entries. */
  lemma ProductWithEmpty(a: Entries)
    ensures Product(a, map[]) == map[]
    ensures Product(map[], a) == map[]
  {
    assert ProductSupport(a, map[]) == {};
    assert ProductSupport(map[], a) == {};
  }

  /** The n-by-n identity matrix. */
  function Identity(n: nat): (m: Entries)
    ensures NoZeros(m)
    ensures forall r, c :: Lookup(m, r, c) == if r == c && 0 <= r < n then 1 else 0
  {
    map d | 0 <= d < n :: (d, d) := 1
  }

  /** Every column index of a lies in [0, n). */
  predicate ColumnsBelow(a: Entries, n: nat)
  {
    forall k :: k in a ==> 0 <= k.1 < n
  }

  lemma {:induction false} DotOverIdentity(a: Entries, n: nat, i: int, j: int, ps: set<Coord>)
    requires ps <= a.Keys && ColumnsBelow(a, n) && 0 <= j < n
    ensures DotOver(a, Identity(n), i, j, ps) == if (i, j) in ps then a[(i, j)] else 0
    decreases ps
  {
    if ps != {} {
      var p :| p in ps && DotOver(a, Identity(n), i, j, ps) == Term(a, Identity(n), i, j, p) + DotOver(a, Identity(n), i, j, ps - {p});
      DotOverIdentity(a, n, i, j, ps - {p});
      assert Lookup(Identity(n), p.1, j) == if p.1 == j then 1 else 0;
      assert Term(a, Identity(n), i, j, p) == if p == (i, j) then a[p] else 0;
    }
  }

  /** A times the identity of its column count is A. */
  lemma ProductIdentity(a: Entries, n: nat)
    requires NoZeros(a) && ColumnsBelow(a, n)
    ensures Product(a, Identity(n)) == a
  {
    ProductLookup(a, Identity(n));
    forall i, j ensures Lookup(Product(a, Identity(n)), i, j) == Lookup(a, i, j) {
      if 0 <= j < n {
        DotOverIdentity(a, n, i, j, a.Keys);
      } else {
        assert (i, j) !in ProductSupport(a, Identity(n));
        DotOverOutside(a, Identity(n), i, j, a.Keys);
      }
    }
    LookupDetermines(Product(a, Identity(n)), a);
  }
}
