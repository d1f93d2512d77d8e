# clear_outputs, modelled in Dafny

`tools/clear_outputs.py` asks the notebook library to read each notebook
named on its command line as a legacy version-3 notebook, clears the outputs
and execution counts (`prompt_number`) of its code cells, and then calls the
library's writer; what that call is given is described below the file list. Its logic is two pieces, both modelled
here:

- `cellgen(nb, type)`: a generator that walks a notebook's worksheets in
  order and each worksheet's cells in order. It yields every cell when
  `type` is `None` and otherwise only the cells whose `cell_type` equals
  `type`.
- The clearing loop in `main`: for every cell `cellgen(nb, 'code')` yields,
  it deletes `prompt_number` when the cell has one and sets `outputs` to the
  empty list. The update happens on the cell objects the notebook holds.

Files:

- `notebook.dfy` (module `NotebookData`): notebook, worksheet and cell.
  Output records, the rest of a cell (source, metadata, ...) and notebook or
  worksheet metadata are opaque types. The containers are generic in what
  they hold, so the same shape holds cell values or cell object references.
- `cellgen.dfy` (module `CellStream`): `CellGen` is the generator as the
  sequence it yields. Lemmas prove how that sequence relates to the
  worksheets: positions, membership, order and multiplicities.
- `clearing.dfy` (module `ClearOutputs`): `ClearCodeCells` is the clearing
  loop as a map from the notebook read to the notebook about to be written.
  Lemmas prove completeness, selectivity, structure preservation and
  idempotence, and how the generator's output changes.
- `in_place.dfy` (module `ClearInPlace`): the loop as the tool runs it.
  `CellNode` is a class with mutable fields. `ClearCodeCellsInPlace` walks
  the worksheets and cells, tests the kind and updates the yielded cells in
  place. It is proved to leave the notebook equal to `ClearCodeCells` of
  what it held before. This holds even when one cell object sits at several
  positions: clearing a cell twice is the same as clearing it once.

The tool's help text says the cleared notebook is saved over the previous
notebook. As written, line 47 passes the format constant `3` where the
stream `f` opened at line 46 is expected, so the write is not directed at
`f`; what the library then does with the integer is not modelled. The model
stops at the in-memory notebook and claims nothing about what is saved.

## Model

| member | source | states |
|---|---|---|
| `CellStream.Select` | tools/clear_outputs.py:25-29 | the inner loop over one worksheet keeps no more cells than the worksheet holds, and every kept cell passes the type test |
| `CellStream.SelectCounts` | tools/clear_outputs.py:25-29 | a cell that passes the type test is kept exactly as many times as it occurs in the worksheet; a cell that fails it is never kept (so a cell is kept if and only if it is in the worksheet and passes) |
| `CellStream.SelectAll` | tools/clear_outputs.py:26-27 | with `type=None` the inner loop yields the worksheet's cells unchanged |
| `CellStream.SelectAppend` | tools/clear_outputs.py:24-29 | filtering two cell runs one after the other is filtering each run and concatenating the results |
| `CellStream.SelectIsSubsequence` | tools/clear_outputs.py:25-29 | the kept cells appear in the order they have in the worksheet |
| `CellStream.SelectUnique` | tools/clear_outputs.py:25-29 | any order-preserving subsequence that holds exactly the passing cells, each as often as it occurs, is the filter's result |
| `CellStream.CellGenFrom` | tools/clear_outputs.py:24-29 | every cell yielded by the loop over the worksheets passes the type test |
| `CellStream.CellGen` | tools/clear_outputs.py:23-29 | every cell `cellgen(nb, type)` yields passes the type test |
| `CellStream.CellGenAllLength` | tools/clear_outputs.py:23-27 | with `type=None` the generator yields as many cells as all worksheets hold together |
| `CellStream.CellGenAllAt` | tools/clear_outputs.py:23-27 | with `type=None`, cell `i` of worksheet `w` is yielded at position (cells in worksheets before `w`) + `i`: worksheet order, then cell order |
| `CellStream.CellGenFilters` | tools/clear_outputs.py:23-29 | the generator with a type yields the untyped stream filtered by that type |
| `CellStream.CellGenMembers` | tools/clear_outputs.py:23-29 | a cell is yielded if and only if it sits at some position of some worksheet and passes the type test |
| `CellStream.CellGenTyped` | tools/clear_outputs.py:23-29 | `cellgen(nb, t)` is an order-preserving subsequence of `cellgen(nb)` holding each cell of kind `t` as often as it occurs and no other cell, and it is the only sequence with these properties |
| `ClearOutputs.ClearCell` | tools/clear_outputs.py:43-45 | a yielded cell ends with empty outputs and no execution count; its kind and body are unchanged |
| `ClearOutputs.ClearCodeCells` | tools/clear_outputs.py:42-45 | the worksheet count, the cells per worksheet and all metadata are unchanged; every cell keeps its kind and body; every non-code cell is unchanged; every code cell has empty outputs and no execution count |
| `ClearOutputs.ClearedByStream` | tools/clear_outputs.py:42-45 | a notebook is cleared if and only if every cell `cellgen(nb, 'code')` yields has no outputs and no execution count |
| `ClearOutputs.ClearFixesCleared` | tools/clear_outputs.py:43-45 | a notebook whose code cells have no outputs and no execution count comes out unchanged, because the `hasattr` guard makes a missing `prompt_number` harmless |
| `ClearOutputs.ClearIdempotent` | tools/clear_outputs.py:42-45 | clearing an already cleared notebook returns the same notebook |
| `ClearOutputs.NoCodeCellsUnchanged` | tools/clear_outputs.py:42-45 | a notebook in which the generator finds no code cell (only markdown, heading or raw cells) comes out unchanged |
| `ClearOutputs.SelectClearCells` | tools/clear_outputs.py:42-45 | within one worksheet, after clearing, the code filter yields the same code cells, each cleared, and any other filter yields what it yielded before |
| `ClearOutputs.CellGenClearFrom` | tools/clear_outputs.py:42-45 | the same as `SelectClearCells`, for a whole sequence of worksheets |
| `ClearOutputs.CellGenAfterClear` | tools/clear_outputs.py:42-45 | after clearing, `cellgen(nb, 'code')` yields the same code cells in the same order, each cleared, and for any other type it yields exactly what it yielded before |
| `ClearOutputs.OneExecutedCodeCell` | tools/clear_outputs.py:42-45 | one code cell with execution count 5 and two outputs, alone in one worksheet, comes out with neither |
| `ClearInPlace.ClearCodeCellsInPlace` | tools/clear_outputs.py:42-45 | running the generator's nested loops and type test together with the in-place body leaves the notebook equal to `ClearCodeCells` of what it held before, with shared cell objects allowed |
| `ClearInPlace.ClearOneExecutedCell` | tools/clear_outputs.py:42-45 | on cell objects, an executed code cell with two outputs in a one-worksheet notebook ends with no execution count and no outputs |

## Left out

- Argument parsing (tools/clear_outputs.py:33-38) is command-line plumbing.
- Reading and writing the file (tools/clear_outputs.py:40-41, 46-47) are calls into the external `nbformat` library. The model starts from the notebook that was read and ends with the cleared notebook in memory. It does not model the truncating open at line 46 or the write at line 47.
- The import fallback between `nbformat` and `IPython.nbformat` (tools/clear_outputs.py:15-18) and the format-version constant `NBFORMAT = 3` (line 20) concern the environment and the library.
- The loop over the file names (tools/clear_outputs.py:39) is sequential I/O. An error on one file stops the rest; that is not modelled.
- Output records, cell bodies and metadata are opaque. The model only states that they are preserved or dropped.
- A `prompt_number` key that is present with the value `None` counts as present for `hasattr` and is deleted. `Option<int>` does not tell it apart from an absent key, so the model treats both as absent.
- A code cell with no `outputs` attribute gains an empty one at line 45. The model gives every cell an `outputs` sequence, so this case does not arise.
- The notebook and worksheet containers are values holding cell references. The loop only reads them; it updates nothing but cell objects.
