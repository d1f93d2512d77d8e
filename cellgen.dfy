/**
 * `cellgen(nb, type)`: the stream of cells of a notebook, worksheet by
 * worksheet and cell by cell, optionally restricted to the cells whose
 * `cell_type` equals `type`.
 */
module CellStream {
  import opened NotebookData

  /** Whether the generator yields cell `c` under the type filter `kind`
      (`None` is the generator's `type=None`: every cell). */
  predicate Yields(kind: Option<string>, c: Cell)
  {
    kind.None? || c.cellType == kind.value
  }

  /** The inner loop over one worksheet's cells: the cells that pass the
      filter, in their order. */
  function Select(cells: seq<Cell>, kind: Option<string>): (r: seq<Cell>)
    ensures |r| <= |cells|
    ensures forall c :: c in r ==> Yields(kind, c)
  {
    if cells == [] then []
    else (if Yields(kind, cells[0]) then [cells[0]] else []) + Select(cells[1..], kind)
  }

  /** Every cell that passes the filter is kept as often as it occurs, and no
      other cell is kept. */
  lemma {:induction false} SelectCounts(cells: seq<Cell>, kind: Option<string>)
    ensures forall c ::
      multiset(Select(cells, kind))[c] == if Yields(kind, c) then multiset(cells)[c] else 0
  {
    if cells != [] {
      SelectCounts(cells[1..], kind);
      assert cells == [cells[0]] + cells[1..];
    }
  }

  /** The outer loop over the worksheets, in order. */
  function CellGenFrom(worksheets: seq<Worksheet<Cell>>, kind: Option<string>): (r: seq<Cell>)
    ensures forall c :: c in r ==> Yields(kind, c)
  {
    if worksheets == [] then []
    else Select(worksheets[0].cells, kind) + CellGenFrom(worksheets[1..], kind)
  }

  /** `cellgen(nb, type)` as the sequence of cells it yields. */
  function CellGen(nb: Notebook<Cell>, kind: Option<string>): (r: seq<Cell>)
    ensures forall c :: c in r ==> Yields(kind, c)
  {
    CellGenFrom(nb.worksheets, kind)
  }

  /** `a` is `b` with some elements dropped and the rest kept in order. */
  ghost predicate SubsequenceOf<T>(a: seq<T>, b: seq<T>)
    decreases |b|
  {
    || a == []
    || (b != [] && ((a[0] == b[0] && SubsequenceOf(a[1..], b[1..])) || SubsequenceOf(a, b[1..])))
  }

  /** Dropping elements never adds occurrences. */
  lemma {:induction false} SubsequenceMultiset<T>(a: seq<T>, b: seq<T>)
    requires SubsequenceOf(a, b)
    ensures multiset(a) <= multiset(b)
    decreases |b|
  {
    if a == [] {
    } else if a[0] == b[0] && SubsequenceOf(a[1..], b[1..]) {
      SubsequenceMultiset(a[1..], b[1..]);
      assert a == [a[0]] + a[1..];
      assert b == [b[0]] + b[1..];
    } else {
      SubsequenceMultiset(a, b[1..]);
      assert b == [b[0]] + b[1..];
    }
  }

  /** With no type filter every cell of the worksheet is kept. */
  lemma {:induction false} SelectAll(cells: seq<Cell>)
    ensures Select(cells, None) == cells
  {
    if cells != [] {
      SelectAll(cells[1..]);
    }
  }

  /** Filtering a concatenation filters each part. */
  lemma {:induction false} SelectAppend(a: seq<Cell>, b: seq<Cell>, kind: Option<string>)
    ensures Select(a + b, kind) == Select(a, kind) + Select(b, kind)
  {
    if a == [] {
      assert a + b == b;
    } else {
      var ab := a + b;
      assert ab[0] == a[0];
      assert ab[1..] == a[1..] + b;
      SelectAppend(a[1..], b, kind);
      var head := if Yields(kind, a[0]) then [a[0]] else [];
      calc {
        Select(ab, kind);
        head + Select(a[1..] + b, kind);
        head + (Select(a[1..], kind) + Select(b, kind));
        (head + Select(a[1..], kind)) + Select(b, kind);
      }
    }
  }

  /** The filtered cells keep their relative order. */
  lemma {:induction false} SelectIsSubsequence(cells: seq<Cell>, kind: Option<string>)
    ensures SubsequenceOf(Select(cells, kind), cells)
  {
    if cells != [] {
      SelectIsSubsequence(cells[1..], kind);
      var r := Select(cells, kind);
      if Yields(kind, cells[0]) {
        assert r[0] == cells[0] && r[1..] == Select(cells[1..], kind);
      } else if r != [] {
        assert r == Select(cells[1..], kind);
        assert SubsequenceOf(r, cells[1..]);
      }
    }
  }

  /** `Select` is the ONLY order-preserving subsequence that holds exactly the
      cells passing the filter, with their multiplicities. */
  lemma {:induction false} SelectUnique(cells: seq<Cell>, kind: Option<string>, r: seq<Cell>)
    requires SubsequenceOf(r, cells)
    requires forall c :: multiset(r)[c] == if Yields(kind, c) then multiset(cells)[c] else 0
    ensures r == Select(cells, kind)
  {
    if cells == [] {
      assert r == [];
    } else {
      var x := cells[0];
      assert cells == [x] + cells[1..];
      if Yields(kind, x) {
        assert multiset(r)[x] > 0;
        assert r != [];
        if !(r[0] == x && SubsequenceOf(r[1..], cells[1..])) {
          SubsequenceMultiset(r, cells[1..]);
          assert false;
        }
        assert r == [x] + r[1..];
        SelectUnique(cells[1..], kind, r[1..]);
      } else {
        assert multiset(r)[x] == 0;
        assert x !in r;
        if r != [] {
          assert r[0] in r;
        }
        assert SubsequenceOf(r, cells[1..]);
        SelectUnique(cells[1..], kind, r);
      }
    }
  }

  /** Number of cells in the worksheets before index `w`, counted from the front. */
  function Offset(worksheets: seq<Worksheet<Cell>>, w: nat): (n: nat)
    requires w <= |worksheets|
    ensures w > 0 ==> n >= |worksheets[0].cells|
  {
    if w == 0 then 0 else |worksheets[0].cells| + Offset(worksheets[1..], w - 1)
  }

  /** With `type=None` the generator yields every cell: as many cells as the
      worksheets hold, cell `i` of worksheet `w` at position `Offset(w) + i`
      (worksheet order, then cell order). */
  lemma {:induction false} CellGenAllAt(worksheets: seq<Worksheet<Cell>>, w: nat, i: nat)
    requires w < |worksheets| && i < |worksheets[w].cells|
    ensures |CellGenFrom(worksheets, None)| == Offset(worksheets, |worksheets|)
    ensures Offset(worksheets, w) + i < Offset(worksheets, |worksheets|)
    ensures CellGenFrom(worksheets, None)[Offset(worksheets, w) + i] == worksheets[w].cells[i]
  {
    var first, rest := worksheets[0].cells, worksheets[1..];
    SelectAll(first);
    assert CellGenFrom(worksheets, None) == first + CellGenFrom(rest, None);
    assert Offset(worksheets, |worksheets|) == |first| + Offset(rest, |rest|);
    if w == 0 {
      CellGenAllLength(rest);
    } else {
      assert rest[w - 1] == worksheets[w];
      CellGenAllAt(rest, w - 1, i);
      assert Offset(worksheets, w) == |first| + Offset(rest, w - 1);
    }
  }

  lemma {:induction false} CellGenAllLength(worksheets: seq<Worksheet<Cell>>)
    ensures |CellGenFrom(worksheets, None)| == Offset(worksheets, |worksheets|)
  {
    if worksheets != [] {
      SelectAll(worksheets[0].cells);
      CellGenAllLength(worksheets[1..]);
    }
  }

  /** A typed generator yields the untyped stream filtered by type. */
  lemma {:induction false} CellGenFilters(worksheets: seq<Worksheet<Cell>>, kind: Option<string>)
    ensures CellGenFrom(worksheets, kind) == Select(CellGenFrom(worksheets, None), kind)
  {
    if worksheets != [] {
      SelectAll(worksheets[0].cells);
      CellGenFilters(worksheets[1..], kind);
      SelectAppend(worksheets[0].cells, CellGenFrom(worksheets[1..], None), kind);
    }
  }

  /** `cellgen(nb, type)` yields exactly the cells of `cellgen(nb)` whose kind is
      `type`, each as often as it occurs there, in the same relative order, and
      nothing else satisfies all of that. */
  lemma CellGenTyped(nb: Notebook<Cell>, kind: string, r: seq<Cell>)
    ensures var all := CellGen(nb, None);
      && SubsequenceOf(CellGen(nb, Some(kind)), all)
      && (forall c :: multiset(CellGen(nb, Some(kind)))[c] ==
            if c.cellType == kind then multiset(all)[c] else 0)
      && (SubsequenceOf(r, all) &&
          (forall c :: multiset(r)[c] == if c.cellType == kind then multiset(all)[c] else 0)
          ==> r == CellGen(nb, Some(kind)))
  {
    var all := CellGen(nb, None);
    CellGenFilters(nb.worksheets, Some(kind));
    SelectIsSubsequence(all, Some(kind));
    SelectCounts(all, Some(kind));
    if SubsequenceOf(r, all) &&
       (forall c :: multiset(r)[c] == if c.cellType == kind then multiset(all)[c] else 0) {
      SelectUnique(all, Some(kind), r);
    }
  }

  /** The generator yields a cell exactly when the cell sits in some
      worksheet of the notebook and passes the type filter. */
  lemma {:induction false} CellGenMembers(worksheets: seq<Worksheet<Cell>>, kind: Option<string>, c: Cell)
    ensures c in CellGenFrom(worksheets, kind) <==>
      && Yields(kind, c)
      && exists w, i :: 0 <= w < |worksheets| && 0 <= i < |worksheets[w].cells| && worksheets[w].cells[i] == c
  {
    if worksheets != [] {
      var first, rest := worksheets[0].cells, worksheets[1..];
      SelectCounts(first, kind);
      assert c in Select(first, kind) <==> multiset(Select(first, kind))[c] > 0;
      CellGenMembers(rest, kind, c);
      if c in CellGenFrom(worksheets, kind) {
        if c in first {
          var i :| 0 <= i < |first| && first[i] == c;
          assert worksheets[0].cells[i] == c;
        } else {
          var w, i :| 0 <= w < |rest| && 0 <= i < |rest[w].cells| && rest[w].cells[i] == c;
          assert worksheets[w + 1].cells[i] == c;
        }
      }
      if Yields(kind, c) &&
         exists w, i :: 0 <= w < |worksheets| && 0 <= i < |worksheets[w].cells| && worksheets[w].cells[i] == c {
        var w, i :| 0 <= w < |worksheets| && 0 <= i < |worksheets[w].cells| && worksheets[w].cells[i] == c;
        if w == 0 {
          assert c in first;
        } else {
          assert rest[w - 1].cells[i] == c;
        }
      }
    }
  }
}
