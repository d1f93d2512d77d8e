/**
 * The clearing loop as the tool runs it: the notebook library hands out
 * cell objects shared by reference with the notebook, and the loop updates
 * each yielded code cell's fields in place. The notebook and worksheet
 * containers are only read, so they are values holding cell references.
 */
module ClearInPlace {
  import opened NotebookData
  import opened ClearOutputs

  /** A cell object with mutable fields. */
  class CellNode {
    var cellType: string
    var promptNumber: Option<int>
    var outputs: seq<OutputRecord>
    var body: CellBody

    constructor (cellType: string, promptNumber: Option<int>, outputs: seq<OutputRecord>, body: CellBody)
      ensures Value() == Cell(cellType, promptNumber, outputs, body)
    {
      this.cellType := cellType;
      this.promptNumber := promptNumber;
      this.outputs := outputs;
      this.body := body;
    }

    /** The cell's current contents as a value. */
    function Value(): Cell
      reads this
    {
      Cell(cellType, promptNumber, outputs, body)
    }
  }

  /** Every cell object the notebook refers to. */
  ghost function Nodes(nb: Notebook<CellNode>): set<CellNode>
  {
    set w, i | 0 <= w < |nb.worksheets| && 0 <= i < |nb.worksheets[w].cells| :: nb.worksheets[w].cells[i]
  }

  /** The cell objects at positions before cell `i` of worksheet `w`, in
      worksheet order then cell order: those the traversal has passed. */
  ghost function Visited(nb: Notebook<CellNode>, w: nat, i: nat): set<CellNode>
  {
    set v, j | 0 <= v < |nb.worksheets| && 0 <= j < |nb.worksheets[v].cells| && (v < w || (v == w && j < i))
      :: nb.worksheets[v].cells[j]
  }

  ghost function SnapshotWorksheet(ws: Worksheet<CellNode>): (r: Worksheet<Cell>)
    reads ws.cells
    ensures |r.cells| == |ws.cells| && r.metadata == ws.metadata
    ensures forall i :: 0 <= i < |ws.cells| ==> r.cells[i] == ws.cells[i].Value()
  {
    Worksheet(seq(|ws.cells|, i requires 0 <= i < |ws.cells| reads ws.cells => ws.cells[i].Value()), ws.metadata)
  }

  /** The notebook's current contents as a value: each position holds the
      current value of the cell object found there. */
  ghost function Snapshot(nb: Notebook<CellNode>): (r: Notebook<Cell>)
    reads Nodes(nb)
    ensures SameShape(nb, r)
    ensures forall w, i :: 0 <= w < |nb.worksheets| && 0 <= i < |nb.worksheets[w].cells| ==>
      r.worksheets[w].cells[i] == nb.worksheets[w].cells[i].Value()
  {
    Notebook(
      seq(|nb.worksheets|, w requires 0 <= w < |nb.worksheets| reads Nodes(nb) =>
        SnapshotWorksheet(nb.worksheets[w])),
      nb.metadata)
  }

  /** Lines 42-45: for every cell `cellgen(nb, 'code')` yields, delete
      `prompt_number` if the cell has one and set `outputs` to the empty
      list. The generator's two loops and its type test run interleaved with
      the body, as the lazy generator does. The notebook read afterwards is
      exactly the value-level clearing of the notebook read before, also when
      one cell object appears at several positions. */
  method ClearCodeCellsInPlace(nb: Notebook<CellNode>)
    modifies Nodes(nb)
    ensures Snapshot(nb) == ClearCodeCells(old(Snapshot(nb)))
  {
    var w := 0;
    while w < |nb.worksheets|
      invariant 0 <= w <= |nb.worksheets|
      invariant forall c :: c in Nodes(nb) ==>
        c.Value() == if c in Visited(nb, w, 0) then ClearIfCode(old(c.Value())) else old(c.Value())
    {
      var cells := nb.worksheets[w].cells;
      var i := 0;
      while i < |cells|
        invariant 0 <= i <= |cells|
        invariant forall c :: c in Nodes(nb) ==>
          c.Value() == if c in Visited(nb, w, i) then ClearIfCode(old(c.Value())) else old(c.Value())
      {
        var cell := cells[i];
        if cell.cellType == CodeKind {
          if cell.promptNumber.Some? {
            cell.promptNumber := None;
          }
          cell.outputs := [];
        }
        assert Visited(nb, w, i + 1) == Visited(nb, w, i) + {cell};
        i := i + 1;
      }
      assert Visited(nb, w + 1, 0) == Visited(nb, w, |cells|);
      w := w + 1;
    }
    assert Visited(nb, w, 0) == Nodes(nb);
    ghost var before := old(Snapshot(nb));
    ghost var after := Snapshot(nb);
    ghost var expected := ClearCodeCells(before);
    forall v | 0 <= v < |nb.worksheets|
      ensures after.worksheets[v] == expected.worksheets[v]
    {
      forall j | 0 <= j < |nb.worksheets[v].cells|
        ensures after.worksheets[v].cells[j] == expected.worksheets[v].cells[j]
      {
        var c := nb.worksheets[v].cells[j];
        assert c in Nodes(nb);
        assert before.worksheets[v].cells[j] == old(c.Value());
      }
    }
  }

  /** A caller's view, on objects: a code cell with execution count 5 and
      two outputs, alone in a one-worksheet notebook, ends up with neither. */
  method ClearOneExecutedCell(o1: OutputRecord, o2: OutputRecord, body: CellBody, md: Metadata)
    returns (after: Cell)
    ensures after == Cell(CodeKind, None, [], body)
  {
    var cell := new CellNode(CodeKind, Some(5), [o1, o2], body);
    var nb := Notebook([Worksheet([cell], md)], md);
    ghost var before := Snapshot(nb);
    assert before.worksheets[0].cells[0] == Cell(CodeKind, Some(5), [o1, o2], body);
    ClearCodeCellsInPlace(nb);
    assert Snapshot(nb).worksheets[0].cells[0] == cell.Value();
    after := cell.Value();
  }
}
