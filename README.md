# File comparison: composite-key anti-join

This project models the comparison step of a small file comparison tool (`app.py`). The user loads a
"main" and a "client" table, may edit or filter their rows, picks one or more key columns on each
side and presses Submit. The step then does four things:

- It refuses to compare unless both column selections are non-empty.
- On a copy of each filtered table it builds a synthetic `_merge_key` column. Each row's selected cells
  are joined with `"||"`, in the order the columns were selected.
- It keeps the client rows whose key is not among the main keys, and the main rows whose key is not
  among the client keys. It then drops the synthetic column from both results.
- It records a six-line summary: both filtered row counts, both result sizes, and both column
  selections joined with `", "`.

Everything is in one module, `FileComparison` (`comparison.dfy`), written as pure functions and lemmas.
In the source, the working copies are changed in place by the column assignment. Assigning a column on
a fresh copy is the same as mapping the table to a new one, so `WithMergeKey` returns a new `Table`.

A table is a list of column labels plus rows of cells. A cell is the string that `astype(str)`
produced. `WellFormed` says two things: column labels are unique, because the CSV and Excel readers
rename repeated headers, and every row has one cell per column. A selection is a list of column
labels. `Selects` says each of them is a column of the table, because the selection widget offers only
those. The two selections may differ in length and in meaning.

The model follows the code literally in three places:

- The key separator is not escaped, so two different rows can have the same key (`KeyCollision`).
  Keys determine the selected cells when no selected cell contains `'|'`
  (`RowKeyInjectiveWithoutPipes`). A one-column key is always the cell itself (`RowKeySingleColumn`).
- Membership is tested against the whole list of the other side's keys, duplicates included. Every
  copy of a row whose key is absent is kept.
- If a table already has a column of its own named `_merge_key`, the assignment overwrites it where it
  stands and the drop removes it. That column is therefore missing from the result
  (`SubmitComputesAntiJoins`, `WithoutMergeKey`). Four lemmas assume no such column:
  `SubmitOnPlainTables`, `MembershipIsKeyAbsence`, `ResultsKeepOrderAndDuplicates` and
  `DisjointKeysGiveWholeInputs`. For those tables each result has exactly its own side's columns and
  rows. `SubmitComputesAntiJoins`, `IdenticalInputsGiveEmptyResults` and `SummaryReportsResults` hold
  without that assumption.

## Model

| member | source | states |
|---|---|---|
| `FileComparison.Submit` | app.py:40-58 | Submit fails with `NoColumnsSelected` exactly when the main or the client selection is empty. Otherwise it succeeds, and neither result has more rows than its own filtered input. |
| `FileComparison.Column` | app.py:49-54 | `df[name]`: one value per row, and each value is that row's cell in the column labelled `name`. `DropColumn` and `WithMergeKey` state their results through it. |
| `FileComparison.Join` | app.py:49-50 | Python's `sep.join`: no parts give the empty string and one part gives that part alone, without a separator. Its other properties are `JoinEnds`, `JoinSnoc` and `JoinInjective`; the summary uses the same function for `", ".join` (app.py:75-76). |
| `FileComparison.JoinEnds` | app.py:49-50 | A join of at least one part begins with the first part and ends with the last part. |
| `FileComparison.RowKey` | app.py:49-50 | The `_merge_key` of one row. An empty selection gives the empty key. A one-column key is that cell. Otherwise the key begins with the first selected cell and ends with the last one. The lemmas `RowKeySingleColumn`, `RowKeyAppendColumn`, `KeyCollision` and `RowKeyInjectiveWithoutPipes` state the rest. |
| `FileComparison.Keys` | app.py:49-50 | One key per row, and equal rows get equal keys. `WithMergeKey` states that this is the `_merge_key` column. |
| `FileComparison.AntiJoin` | app.py:53-54 | Filtering the working copy by `~isin` and dropping `_merge_key` gives a well-formed table without `_merge_key` and with no more rows than the copy. It equals the copy without `_merge_key`, restricted to the rows whose key is not among the other keys. `AntiJoinOfKeyedTable` and `MembershipIsKeyAbsence` state this for the user's tables. |
| `FileComparison.Summary` | app.py:61-78 | The summary sheet has six metrics: four counts, then two joined name lists. `SummaryReportsResults` states which count and which list each one is. |
| `FileComparison.Cells` | app.py:49-50 | `df[cols]` for one row: one cell per selected column, in selection order. The i-th cell is the row's cell in the column labelled `cols[i]`. |
| `FileComparison.WithMergeKey` | app.py:45-50 | The working copy stays well formed, has as many rows as the filtered table, and has a `_merge_key` column. Its labels are the original ones plus `_merge_key`. The `_merge_key` column holds, row by row, the key (the cells joined with the key separator) of that row's selected cells. |
| `FileComparison.DropUndoesMergeKey` | app.py:49-54 | Dropping `_merge_key` from the working copy gives back the original table, minus any column of its own with that name. For a table without such a column, it gives back exactly the original. |
| `FileComparison.DropColumn` | app.py:53-54 | `drop(columns=[name])` leaves a well-formed table without `name`. The other labels keep their order (the labels are exactly those before and after `name`), every other column keeps all of its cells, and the row count is unchanged. |
| `FileComparison.KeepUnmatched` | app.py:53-54 | The `~isin` mask filter returns no more rows than it was given, and only rows that were in the input. |
| `FileComparison.KeepUnmatchedRemoveAt` | app.py:53-54 | Filtering rows by key and then dropping a column gives the same rows as dropping the column first and then filtering. |
| `FileComparison.AntiJoinOfKeyedTable` | app.py:49-54 | Adding the key, keeping the rows whose key is absent from the other side, and dropping the key gives this: the user's table without `_merge_key`, keeping exactly the rows whose own key is absent. |
| `FileComparison.JoinSnoc` | app.py:49-50 | Joining one more part appends the separator and that part at the end. |
| `FileComparison.RowKeySingleColumn` | app.py:49-50 | The key of a one-column selection is that cell itself. |
| `FileComparison.RowKeyAppendColumn` | app.py:49-50 | Selecting one more column appends the key separator and that column's cell to the key, so the key follows selection order. |
| `FileComparison.KeyCollision` | app.py:49-50 | Two different rows whose cells contain the key separator get the same key: the separator is not escaped. |
| `FileComparison.JoinInjective` | app.py:49-50 | Two non-empty lists of parts without a pipe character that join to the same key are equal. |
| `FileComparison.RowKeyInjectiveWithoutPipes` | app.py:49-50 | Suppose no selected cell contains a pipe character. Then two rows have the same key if and only if their selected cells are equal. |
| `FileComparison.KeepUnmatchedIsSubsequence` | app.py:53-54 | The filtered rows are a subsequence of the input, in the input's order. |
| `FileComparison.KeepUnmatchedMultiplicity` | app.py:53-54 | Suppose equal rows have equal keys. A row whose key is absent keeps all its copies, and a row whose key is present keeps none. |
| `FileComparison.KeepUnmatchedMembership` | app.py:53-54 | Suppose equal rows have equal keys. A row survives the `~isin` filter if and only if its key is not among the other side's keys. |
| `FileComparison.KeepUnmatchedAllMatched` | app.py:53-54 | When every key occurs among the other side's keys, no row is kept. |
| `FileComparison.KeepUnmatchedNoneMatched` | app.py:53-54 | When no key occurs among the other side's keys, every row is kept, in order. |
| `FileComparison.SubmitComputesAntiJoins` | app.py:41-54 | With both selections non-empty, Submit succeeds. "Client not in main" is the client table, without any `_merge_key` column, filtered to the rows whose client key is not a main key. "Main not in client" is the same with the sides swapped. Each result carries its own side's columns. |
| `FileComparison.SubmitOnPlainTables` | app.py:45-54 | For tables without a `_merge_key` column, each result has exactly its own side's columns. Its rows are its own side's rows, filtered by key. `main_not_in_client` never carries client's columns. |
| `FileComparison.MembershipIsKeyAbsence` | app.py:53-54 | A client row is in "client not in main" if and only if its key is not among the main keys, and the same holds for main rows. Every result row is a row of its own input. |
| `FileComparison.ResultsKeepOrderAndDuplicates` | app.py:53-54 | Each result is a subsequence of its own input. A row whose key is absent is kept as many times as it occurs, and a row whose key is present is not kept at all. |
| `FileComparison.IdenticalInputsGiveEmptyResults` | app.py:53-54 | Comparing a table with itself on the same key columns gives two empty results. |
| `FileComparison.DisjointKeysGiveWholeInputs` | app.py:53-54 | When no main key equals a client key, each result is its whole input table. |
| `FileComparison.SummaryReportsResults` | app.py:57-76 | The summary has six values: both filtered row counts, then the two result sizes, each at most its input's count, then both selections joined with `", "` in selection order. |

## Left out

- The Streamlit page: uploaders, the `data_editor` tables, sidebar widgets, messages and the download button. The filtered tables and the two selections are inputs here.
- The "Found N rows" success messages and the error text: these are display strings. The counts they show are the ones `SummaryReportsResults` covers.
- Reading CSV and Excel files. Only the readers' renaming of repeated headers is kept, as the unique-labels part of `WellFormed`.
- Selection options: the widget offers the columns of the unfiltered table, but the key is built on the edited one. Row editing does not change the columns, so the model uses one header for both.
- `astype(str)`: how pandas renders numbers, floats, missing values and dates as text. Cells are already strings.
- Output cells: results keep pandas' original typed values, while the model keeps the strings.
- `convert_to_excel`: the workbook, sheet names, formats and column widths.
- Submit: the model assumes well-formed tables and selections that name existing columns. The source never produces anything else.
- Submit: a filtered table with no rows and two or more selected key columns is modelled as an ordinary comparison with empty results and zero counts. With pandas, the row-wise `agg` on an empty frame falls back to returning the selected columns themselves, and assigning that multi-column frame to `_merge_key` raises an uncaught error, so no counts and no download appear. This comes from the dataframe library's internals, which are not part of this model.
- SummaryReportsResults: column labels are assumed to be strings. With an Excel header cell that is a number or a date, the label is not a string, `", ".join` on the selection raises, and the program stops after showing the two counts, with no summary and no download. The model drops that error path.
- MembershipIsKeyAbsence, ResultsKeepOrderAndDuplicates, DisjointKeysGiveWholeInputs, SubmitOnPlainTables: these assume neither table has a column of its own named `_merge_key`. Without that assumption a kept row loses that column, and two rows that differ only there look alike. `SubmitComputesAntiJoins` states the general case.
