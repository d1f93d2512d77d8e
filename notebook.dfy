/**
 * The legacy (version 3) notebook document as the clearing tool sees it:
 * a notebook holds an ordered sequence of worksheets, a worksheet an ordered
 * sequence of cells. The containers are generic in what they hold, so the
 * same shape describes a notebook of cell values and a notebook whose
 * worksheets hold references to mutable cell objects.
 */
module NotebookData {

  datatype Option<T> = None | Some(value: T)

  /** One captured result of running a code cell; its contents do not matter here. */
  type OutputRecord(!new)

  /** Everything in a cell other than its kind, execution count and outputs
      (source text, language, metadata, collapsed flag, ...). */
  type CellBody(!new)

  /** Notebook- or worksheet-level metadata, carried through untouched. */
  type Metadata(!new)

  /** A cell: its `cell_type` string ("code", "markdown", "heading", "raw"),
      its optional `prompt_number`, its `outputs` list and the rest. */
  datatype Cell = Cell(
    cellType: string,
    promptNumber: Option<int>,
    outputs: seq<OutputRecord>,
    body: CellBody)

  const CodeKind: string := "code"

  datatype Worksheet<C> = Worksheet(cells: seq<C>, metadata: Metadata)

  datatype Notebook<C> = Notebook(worksheets: seq<Worksheet<C>>, metadata: Metadata)

  /** The same worksheet count, the same cell count per worksheet and the same metadata. */
  ghost predicate SameShape<C, D>(a: Notebook<C>, b: Notebook<D>)
  {
    && |a.worksheets| == |b.worksheets|
    && a.metadata == b.metadata
    && forall w :: 0 <= w < |a.worksheets| ==>
         && |a.worksheets[w].cells| == |b.worksheets[w].cells|
         && a.worksheets[w].metadata == b.worksheets[w].metadata
  }
}
