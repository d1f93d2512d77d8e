/**
 * What the clearing loop does to a notebook, stated on values: every cell
 * the generator yields for the type "code" loses its `prompt_number` (when
 * it has one) and gets an empty `outputs` list; every other cell, every
 * worksheet and the notebook's own fields stay as they were.
 */
module ClearOutputs {
  import opened NotebookData
  import opened CellStream

  /** The loop body on one yielded cell: `prompt_number` removed if present,
      `outputs` reset to the empty list, nothing else touched. */
  function ClearCell(c: Cell): (r: Cell)
    ensures r.outputs == [] && r.promptNumber == None
    ensures r.cellType == c.cellType && r.body == c.body
  {
    var withoutPrompt := if c.promptNumber.Some? then c.(promptNumber := None) else c;
    withoutPrompt.(outputs := [])
  }

  /** A cell in the notebook after the loop: cleared if the generator yields
      it for "code", otherwise never reached. */
  function ClearIfCode(c: Cell): Cell
  {
    if Yields(Some(CodeKind), c) then ClearCell(c) else c
  }

  function ClearCells(cells: seq<Cell>): (r: seq<Cell>)
    ensures |r| == |cells|
  {
    seq(|cells|, i requires 0 <= i < |cells| => ClearIfCode(cells[i]))
  }

  function ClearWorksheet(ws: Worksheet<Cell>): Worksheet<Cell>
  {
    Worksheet(ClearCells(ws.cells), ws.metadata)
  }

  function ClearWorksheets(worksheets: seq<Worksheet<Cell>>): (r: seq<Worksheet<Cell>>)
    ensures |r| == |worksheets|
  {
    seq(|worksheets|, w requires 0 <= w < |worksheets| => ClearWorksheet(worksheets[w]))
  }

  /** A code cell holds no outputs and no execution count. */
  predicate IsClearCode(c: Cell)
  {
    Yields(Some(CodeKind), c) ==> c.outputs == [] && c.promptNumber.None?
  }

  /** Every code cell of the notebook is already cleared. */
  predicate Cleared(nb: Notebook<Cell>)
  {
    forall w, i :: 0 <= w < |nb.worksheets| && 0 <= i < |nb.worksheets[w].cells| ==>
      IsClearCode(nb.worksheets[w].cells[i])
  }

  /** The clearing loop, lines 42-45, as a map from the notebook read to the
      notebook about to be written: the shape, every cell's kind and body, and
      every non-code cell are preserved, and every code cell ends up with no
      outputs and no execution count whatever it held before. */
  function ClearCodeCells(nb: Notebook<Cell>): (r: Notebook<Cell>)
    ensures SameShape(nb, r)
    ensures Cleared(r)
    ensures forall w, i :: 0 <= w < |nb.worksheets| && 0 <= i < |nb.worksheets[w].cells| ==>
      && r.worksheets[w].cells[i].cellType == nb.worksheets[w].cells[i].cellType
      && r.worksheets[w].cells[i].body == nb.worksheets[w].cells[i].body
      && (nb.worksheets[w].cells[i].cellType != CodeKind ==>
            r.worksheets[w].cells[i] == nb.worksheets[w].cells[i])
  {
    Notebook(ClearWorksheets(nb.worksheets), nb.metadata)
  }

  /** `Cleared` read through the generator: the notebook is cleared exactly
      when every cell `cellgen(nb, 'code')` yields holds no outputs and no
      execution count. */
  lemma ClearedByStream(nb: Notebook<Cell>)
    ensures Cleared(nb) <==>
      forall c :: c in CellGen(nb, Some(CodeKind)) ==> c.outputs == [] && c.promptNumber.None?
  {
    var ws := nb.worksheets;
    if Cleared(nb) {
      forall c | c in CellGen(nb, Some(CodeKind))
        ensures c.outputs == [] && c.promptNumber.None?
      {
        CellGenMembers(ws, Some(CodeKind), c);
        var w, i :| 0 <= w < |ws| && 0 <= i < |ws[w].cells| && ws[w].cells[i] == c;
        assert IsClearCode(ws[w].cells[i]);
      }
    }
    if forall c :: c in CellGen(nb, Some(CodeKind)) ==> c.outputs == [] && c.promptNumber.None? {
      forall w, i | 0 <= w < |ws| && 0 <= i < |ws[w].cells|
        ensures IsClearCode(ws[w].cells[i])
      {
        CellGenMembers(ws, Some(CodeKind), ws[w].cells[i]);
      }
    }
  }

  /** Clearing a notebook whose code cells are already clear changes nothing. */
  lemma ClearFixesCleared(nb: Notebook<Cell>)
    requires Cleared(nb)
    ensures ClearCodeCells(nb) == nb
  {
    var r := ClearCodeCells(nb);
    forall w | 0 <= w < |nb.worksheets|
      ensures r.worksheets[w] == nb.worksheets[w]
    {
      var cells := nb.worksheets[w].cells;
      forall i | 0 <= i < |cells|
        ensures r.worksheets[w].cells[i] == cells[i]
      {
        assert IsClearCode(cells[i]);
      }
    }
  }

  /** Clearing is idempotent. */
  lemma ClearIdempotent(nb: Notebook<Cell>)
    ensures ClearCodeCells(ClearCodeCells(nb)) == ClearCodeCells(nb)
  {
    ClearFixesCleared(ClearCodeCells(nb));
  }

  /** A notebook in which the generator finds no code cell (only markdown,
      heading or raw cells) comes out unchanged. */
  lemma NoCodeCellsUnchanged(nb: Notebook<Cell>)
    requires CellGen(nb, Some(CodeKind)) == []
    ensures ClearCodeCells(nb) == nb
  {
    ClearedByStream(nb);
    ClearFixesCleared(nb);
  }

  /** The cells yielded one after another, each cleared. */
  function ClearEach(cells: seq<Cell>): (r: seq<Cell>)
    ensures |r| == |cells|
  {
    seq(|cells|, i requires 0 <= i < |cells| => ClearCell(cells[i]))
  }

  lemma {:induction false} SelectClearCells(cells: seq<Cell>, kind: string)
    ensures Select(ClearCells(cells), Some(kind)) ==
      if kind == CodeKind then ClearEach(Select(cells, Some(kind))) else Select(cells, Some(kind))
  {
    if cells != [] {
      SelectClearCells(cells[1..], kind);
      assert ClearCells(cells)[1..] == ClearCells(cells[1..]);
      if kind == CodeKind && Yields(Some(kind), cells[0]) {
        var tail := Select(cells[1..], Some(kind));
        assert ClearEach([cells[0]] + tail) == [ClearCell(cells[0])] + ClearEach(tail);
      }
    }
  }

  lemma ClearEachAppend(a: seq<Cell>, b: seq<Cell>)
    ensures ClearEach(a + b) == ClearEach(a) + ClearEach(b)
  {
  }

  lemma {:induction false} CellGenClearFrom(worksheets: seq<Worksheet<Cell>>, kind: string)
    ensures CellGenFrom(ClearWorksheets(worksheets), Some(kind)) ==
      if kind == CodeKind then ClearEach(CellGenFrom(worksheets, Some(kind)))
      else CellGenFrom(worksheets, Some(kind))
  {
    var cleared := ClearWorksheets(worksheets);
    if worksheets != [] {
      var first, rest := worksheets[0].cells, worksheets[1..];
      CellGenClearFrom(rest, kind);
      assert cleared[1..] == ClearWorksheets(rest);
      assert cleared[0].cells == ClearCells(first);
      var a, b := Select(first, Some(kind)), CellGenFrom(rest, Some(kind));
      assert CellGenFrom(worksheets, Some(kind)) == a + b;
      assert CellGenFrom(cleared, Some(kind)) ==
        Select(ClearCells(first), Some(kind)) + CellGenFrom(ClearWorksheets(rest), Some(kind));
      SelectClearCells(first, kind);
      if kind == CodeKind {
        ClearEachAppend(a, b);
      }
    }
  }

  /** Through the generator: after clearing, `cellgen(nb, 'code')` yields the
      same code cells as before, in the same order, each cleared; for any other
      type it yields exactly what it yielded before. */
  lemma CellGenAfterClear(nb: Notebook<Cell>, kind: string)
    ensures CellGen(ClearCodeCells(nb), Some(kind)) ==
      if kind == CodeKind then ClearEach(CellGen(nb, Some(kind))) else CellGen(nb, Some(kind))
  {
    CellGenClearFrom(nb.worksheets, kind);
  }

  /** One worksheet holding one code cell with execution count 5 and two
      outputs comes out with neither. */
  lemma OneExecutedCodeCell(o1: OutputRecord, o2: OutputRecord, body: CellBody, md: Metadata)
    ensures
      var nb := Notebook([Worksheet([Cell(CodeKind, Some(5), [o1, o2], body)], md)], md);
      ClearCodeCells(nb) == Notebook([Worksheet([Cell(CodeKind, None, [], body)], md)], md)
  {
    var nb := Notebook([Worksheet([Cell(CodeKind, Some(5), [o1, o2], body)], md)], md);
    assert ClearCells(nb.worksheets[0].cells) == [Cell(CodeKind, None, [], body)];
    assert ClearWorksheets(nb.worksheets) == [Worksheet([Cell(CodeKind, None, [], body)], md)];
  }
}
