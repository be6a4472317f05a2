# flake8-import, modelled in Dafny

`flake8-import` is a flake8 plugin. flake8 parses a file, hands the module's
syntax tree to `ImportChecker`, and collects the tuples that `run` yields.
The checker looks at the direct children of the module node only:

- a plain `import ...` statement gives the diagnostic `X100 found import`;
- a `from ... import ...` statement gives `X200 found import from`, whatever
  its module (absent in `from . import x`) and names;
- any other statement gives nothing, and statements nested inside it are
  never visited.

Each diagnostic is reported as `(line, column, "<code> <message>", checker
class)`, at the position of its statement, in the order of the children.

The model lives in two files:

- `wrappers.dfy`: module `Wrappers`, the `Option` type.
- `flake8_import.dfy`: module `Flake8Import`, covering the following.
  - `Flake8Error` and its `error_message` (`ErrorMessage`). `SplitMessage` is
    its inverse for codes without a space, which covers both codes the
    checker builds: it reads the code back from the text.
  - The syntax tree as a sequence of `Stmt` values: `Import`, `ImportFrom` or
    `Other`. An `Other` statement carries its nested body.
  - `_process_import`, `_process_import_from` and `_check_node`, as
    functions.
  - `run` as the method `Run`. Its loop appends to the output sequence and
    is proved equal to the filter-map function `Reports`.
  - The lemmas that describe `Reports`: how long it is, what order it keeps,
    and what each element holds.

## Model

| member | source | states |
|---|---|---|
| `Flake8Import.ErrorMessage` | flake8_import.py:13-15 | The text is the code, then exactly one space at position `|code|`, then the message, and nothing else. |
| `Flake8Import.SplitErrorMessage` | flake8_import.py:15 | If the code has no space, splitting the text at its first space gives back the code and the message. |
| `Flake8Import.ErrorMessageInjective` | flake8_import.py:15 | Two errors whose codes have no space give the same text only if they are the same error. |
| `Flake8Import.ProcessImport` | flake8_import.py:36-38 | Every plain import gives code `X100` and the text `X100 found import`, whatever names or aliases it binds. |
| `Flake8Import.ProcessImportFrom` | flake8_import.py:40-44 | Every from-import gives code `X200` and the text `X200 found import from`, including a relative one with no module. The module and first name are read but do not change the result. The statement must bind at least one name. |
| `Flake8Import.CheckNode` | flake8_import.py:29-34 | An error comes back if and only if the node is an `Import` or `ImportFrom`. Its code is `X100` exactly for `Import` and `X200` exactly for `ImportFrom`. Any other node gives `None`. |
| `Flake8Import.CheckNodeMessage` | flake8_import.py:29-44 | For an `Import` or `ImportFrom` child, the error `_check_node` returns formats to `X100 found import` or `X200 found import from` respectively. |
| `Flake8Import.Run` | flake8_import.py:24-27 | The loop produces exactly `Reports(tree)`: one tuple per import child, in child order. Its length is the number of import children. |
| `Flake8Import.ImportIndices` | flake8_import.py:25-33 | The positions of the import children, strictly increasing. A position is listed if and only if the child there is an import. |
| `Flake8Import.ReportsSnoc` | flake8_import.py:25-27 | The one-step unfolding of `Reports` on a tree that ends in a given child, used to prove `ReportsAppend` and `OtherIgnored`. It is one iteration of the loop: the child's tuple, if any, goes after the unchanged earlier output, and an `Other` child adds nothing. |
| `Flake8Import.ReportsAppend` | flake8_import.py:25-27 | Output for a concatenated list of children is the first part's output followed by the second's: nothing is reordered, merged or deduplicated. |
| `Flake8Import.ReportsLength` | flake8_import.py:25-33 | There is exactly one tuple per top-level `Import` or `ImportFrom` child, counted independently from the front. |
| `Flake8Import.ReportsAt` | flake8_import.py:25-33 | The k-th tuple belongs to the k-th import child. It carries that child's own `lineno` and `col_offset`, its `X100`/`X200` text and the checker class. |
| `Flake8Import.OtherIgnored` | flake8_import.py:25-34 | Inserting a non-import statement anywhere leaves the output unchanged, whatever imports are nested inside it. |
| `Flake8Import.MessagesClosed` | flake8_import.py:36-44 | Every message in the output is either `X100 found import` or `X200 found import from`. |
| `Flake8Import.SplitImportMessage` | flake8_import.py:36-38 | The literal text `X100 found import` splits back into code `X100` and message `found import`. |
| `Flake8Import.SplitImportFromMessage` | flake8_import.py:40-44 | The literal text `X200 found import from` splits back into code `X200` and message `found import from`. |
| `Flake8Import.ReportCodes` | flake8_import.py:24-44 | Reading back the text of the k-th output tuple gives code `X100` and `found import` when the k-th import child is a plain import, and `X200` and `found import from` when it is a from-import. |

## Left out

- The `astpretty.pprint` debug output in `_process_import` and `_process_import_from` is left out. It only prints and has no effect on the result.
- Python's parser and `ast.iter_child_nodes` are left out. The model takes the list of direct children as an input sequence of `Stmt` values. It keeps each statement's kind and position. It also keeps the imported names, the from-import module and the nested body, even though the result never depends on them: the checker reads the from-import module and first name at flake8_import.py:42-43, then ignores them. They are there so the lemmas can say the result does not depend on them. `ast.iter_child_nodes` also yields a module's `type_ignores` entries. These are not statements; they produce no output, and the model covers them as `Other`.
- The `filename` constructor argument and the `name`/`version` class attributes are left out. They are plugin-registration metadata with no behaviour. `ImportChecker.__init__` only stores the tree, so `Run` takes the tree as its parameter and no class is modelled.
- `setup.py` is left out. It is packaging and flake8 entry-point registration.
- `run` is a lazy generator. `Run` returns the whole sequence at once, with the same elements in the same order.
- `ProcessImportFrom`: a from-import with an empty `names` list would raise `IndexError` in the source. Python's parser never produces one, so the model excludes it by a precondition (`WellFormed`, and through it `WellFormedTree`, on `CheckNode`, `Emit`, `Reports` and `Run`) and does not model the exception.
- The truthiness test in `run` is modelled as "an error is present". A `Flake8Error` object defines neither `__bool__` nor `__len__`, so it is always true.
- No per-module rule set, alias allow-list or `X300` code is modelled: `flake8_import.py` has none.
- The model does not state that line and column numbers rise through the output. It is true only when the parser lists children in source order, and the model does not constrain the input positions. `ReportsAt` states the ordering by child position instead.
