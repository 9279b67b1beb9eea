# SmartPack reply handling, modelled in Dafny

SmartPack (`app.py`) asks a hosted language model to redistribute packed boxes between customers' orders.
It then turns the model's free-text reply into three artefacts:

- an explanation;
- a redistribution table, which becomes a pandas `DataFrame` and then an Excel file;
- printable labels, which become a Word document.

This project models, and proves properties of, the three pieces of `app.py` that do this
text handling.

- **Segmentation.** `procesar_respuesta_gemini` is modelled by the function `Segmentation.Segment` (`segmentation.dfy`).
  - The reply is split on the literal markers `ETIQUETAS:` and `TABLA DE REDISTRIBUCIÓN:`.
  - The labels section is split on `---`. Each piece is stripped, and empty pieces are dropped.
  - `EXPLICACIÓN:` is removed from the explanation, which is then stripped.
  - A missing or repeated marker never raises. It leaves the corresponding section empty.
- **Table materialisation.** `tabla_markdown_a_df` is modelled by the function `TableText.MarkdownToTable` (`table.dfy`). The part inside its `try` block is `TableText.ParseLines`.
  - Text without a pipe is rejected.
  - The lines that hold a pipe and no `---` are kept, in order. Fewer than three kept lines are rejected.
  - The kept lines are joined with `"\n"` and read back line by line. The two steps cancel out, because no kept line holds a line end, so the model works on the kept lines directly.
  - Each kept line is cut at its pipes into cells, and the first line is the header.
  - The first and last cell of every line are dropped. Header names are stripped.
  - Rows whose remaining cells are all missing are dropped.
  - The result is `Result<Table, TableError>`. Its three errors, `NotMarkdown`, `TooShort` and `RowWidth(line)`, stand for the three `ValueError`s the function raises.
- **Label document.** `generar_docx` is modelled by the method `LabelDoc.GenerateDocx` (`labels.dfy`).
  - A `Document` class holds the paragraph sequence, which `AddParagraph` extends.
  - The method `GenerateDocx` runs the source's nested loops. For every label it adds one paragraph per line, then a rule of forty dashes.
  - It is proved equal to the functional layout `Layout`, whose properties are proved as lemmas.

Module `Text` (`text.dfy`) models the Python string operations these three pieces use:

- `strip()`, with its whitespace set: `IsSpace`, `Strip`;
- `split(sep)`, as leftmost, non-overlapping cutting: `Split`;
- `sep.join`: `Join`;
- `replace`: `Replace`;
- `splitlines()`: `SplitLines`;
- substring `in`: `Contains`;
- the filtering list comprehension: `Filter`.

Two independent definitions give the split lemmas something to be checked against. `Occurrences` counts every position where a separator starts, overlapping ones included. `NoSelfOverlap` is a condition on the separator that guarantees that count equals the number of cuts; without it the two can differ, as for `"aa"` in `"aaa"`, which occurs twice but is cut once.

A table without outer pipes loses its real outer columns, because `app.py:96` drops the first and last column of every line unconditionally. A two-column table written `H1|H2` therefore yields no column and no row. `TableText.BarePipeTable`, `TableText.BarePipeTableDividerLast` and `TableText.TwoCellHeaderLeavesNothing` state this as the code does it.

## Model

| member | source | states |
|---|---|---|
| Text.Strip | app.py:78 | models `strip()`; its own contract: the result starts and ends with a non-space character and is no longer than the text; the full characterisation is in `Text.StripIsInfix` |
| Text.Split | app.py:76 | models `split(sep)` by leftmost, non-overlapping cutting; its own contract: there is always at least one piece; properties in `Text.SplitJoin`, `Text.JoinSplit`, `Text.SplitCount`, `Text.SplitPiecesFree` and `Text.SplitFirstPiece` |
| Text.Join | app.py:93 | models `sep.join(parts)`, as in the `"\n"` join of the kept lines; no contract of its own; it is the reference for the split round trips `Text.SplitJoin` and `Text.JoinSplit`, and `Text.SplitLinesOfJoin` shows why `TableText.ParseLines` can skip that join |
| Text.Replace | app.py:81 | models `replace(p, r)`; no contract of its own; properties in `Text.ReplaceIsSplitJoin` and `Text.ReplaceAbsent` |
| Text.SplitLines | app.py:90 | models `splitlines()` at `"\n"` and `"\r\n"`; its own contract: no line holds a `"\n"`, and the empty text has no lines; the round trip is `Text.SplitLinesOfJoin` |
| Text.Filter | app.py:90 | models the filtering list comprehension; its own contract: the result is no longer than the input and holds exactly the input elements the predicate accepts; order is `Text.FilterAppend` |
| Text.StripIsInfix | app.py:78 | `strip()` returns the infix of the text that leaves only whitespace before and after it, and that infix starts and ends with a non-space character |
| Text.StripIdempotent | app.py:78 | stripping a stripped text changes nothing |
| Text.StripKeepsAbsence | app.py:82 | stripping never introduces a substring the text did not hold |
| Text.SplitJoin | app.py:76 | joining the pieces of `split(sep)` with `sep` gives back the original text |
| Text.JoinSplit | app.py:76 | a join of pieces free of a non-self-overlapping separator splits back into exactly those pieces |
| Text.SplitCount | app.py:76-77 | for a separator that cannot overlap itself, `split` yields one piece more than the separator has occurrences |
| Text.SplitPiecesFree | app.py:76 | no piece of a split contains the separator |
| Text.SplitFirstPiece | app.py:76 | the first piece is the prefix up to the first occurrence of the separator (the whole text without one) and is free of it: no occurrence starts inside it, and one starts right after it unless it is the whole text, also for a separator such as `---` that can overlap itself |
| Text.ReplaceIsSplitJoin | app.py:81 | `replace(p, r)` equals splitting on `p` and joining with `r` |
| Text.ReplaceAbsent | app.py:81 | replacing a pattern that does not occur leaves the text unchanged |
| Text.SplitLinesOfJoin | app.py:90 | lines free of line ends, the last non-empty, joined with `"\n"` split back into those lines |
| Text.FilterAppend | app.py:90 | the filtering comprehension keeps order: it distributes over concatenation |
| Segmentation.Segment | app.py:74-83 | models `procesar_respuesta_gemini`: the explanation, table text and labels as the function computes them; no contract of its own; properties in `Segmentation.LabelsNeedSingleMarker`, `Segmentation.SectionsNeedSingleTableMarker`, `Segmentation.TableSection`, `Segmentation.ExplanationWithoutMarker`, `Segmentation.LabelsWellFormed` and `Segmentation.WellFormedReply` |
| Segmentation.LabelBlocks | app.py:78 | models the labels comprehension: the stripped `---` pieces, empty ones dropped; no contract of its own; properties in `Segmentation.LabelBlocksWellFormed` |
| Segmentation.Body | app.py:76-79 | the part before the first `ETIQUETAS:` that the table split works on (`partes[0]`); no contract of its own; properties in `Segmentation.BodyIsTextBeforeFirstMarker` |
| Segmentation.MarkersDoNotOverlap | app.py:76-79 | neither section marker can overlap itself, so its occurrences are its cut points |
| Segmentation.MarkerSplitsInTwoIffOnce | app.py:76-80 | a section marker splits the text into exactly two parts if and only if it occurs exactly once |
| Segmentation.LabelBlocksWellFormed | app.py:78 | every label block is non-empty, equals its own strip and contains no `---`, nor `ETIQUETAS:` when the text after the marker has none |
| Segmentation.LabelsWellFormed | app.py:76-78 | every returned label is non-empty, stripped, and holds neither `---` nor `ETIQUETAS:` |
| Segmentation.LabelsNeedSingleMarker | app.py:75-78 | labels are empty unless `ETIQUETAS:` occurs exactly once; when it does, the reply is the text before the marker, the marker, and a marker-free rest, and the labels are that rest's blocks |
| Segmentation.NoLabelsMarker | app.py:75-78 | a reply without `ETIQUETAS:` yields no labels |
| Segmentation.BodyIsTextBeforeFirstMarker | app.py:76-79 | the text the table split works on is the prefix before the first `ETIQUETAS:` (the whole reply without one) and holds no `ETIQUETAS:` |
| Segmentation.SectionsNeedSingleTableMarker | app.py:75-82 | explanation and table are both empty unless that prefix holds `TABLA DE REDISTRIBUCIÓN:` exactly once |
| Segmentation.NoTableMarker | app.py:79-82 | a reply without the table marker yields an empty explanation and an empty table |
| Segmentation.TableSection | app.py:79-82 | the table text is always stripped and holds neither marker; when produced, the explanation comes from the text before the table marker and the table from the text after it |
| Segmentation.ExplanationWithoutMarker | app.py:81 | without `EXPLICACIÓN:` before the table marker, the explanation is that text stripped |
| Segmentation.WellFormedReply | app.py:74-83 | a reply laid out as `a` TABLA DE REDISTRIBUCIÓN: `b` ETIQUETAS: `c`, with the markers only there, is cut back into exactly those three sections |
| TableText.MarkdownToTable | app.py:87-100 | models `tabla_markdown_a_df`, with its three `ValueError`s as `Err` values; no contract of its own; properties in `TableText.NoPipeRejected`, `TableText.ShortTableRejected`, `TableText.SuccessIff`, `TableText.SuccessColumns`, `TableText.SuccessRows` and the examples below |
| TableText.ParseLines | app.py:93-100 | models the `try` block; it takes the kept lines themselves, because joining them with `"\n"` and `read_csv`'s line split cancel out (the kept lines hold no line end: `Text.SplitLinesOfJoin`); the kept lines are cut into records, outer columns dropped, header names stripped, rows without a value dropped; no contract of its own; properties in `TableText.ParseSuccessIff`, `TableText.RowWidthNamesFirstMismatch`, `TableText.ParseColumns` and `TableText.ParseRows` |
| TableText.Cells | app.py:95 | the cells `read_csv` makes of a line by cutting it at every pipe; its own contract: a line with a pipe has at least two cells |
| TableText.Inner | app.py:96 | `iloc[:, 1:-1]` on one row; its own contract: a row of at least two cells loses exactly two |
| TableText.ColumnNames | app.py:96-97 | the column names; its own contract: one name per inner header cell, each that cell stripped |
| TableText.DataRows | app.py:96-98 | `dropna(how="all")` on the inner rows; its own contract: no more rows than records, and a row is kept if and only if it is an inner row with a value; order is `TableText.DataRowsInOrder` |
| TableText.FirstWidthMismatch | app.py:95 | the first record whose width differs from the header's; its own contract: every earlier record has the header's width, and the one found, if any, does not |
| TableText.TableLines | app.py:90 | a line is kept if and only if it is a line of the stripped text that holds a pipe and no `---` |
| TableText.TableLinesInOrder | app.py:90 | the kept lines are in input order: for any cut of the text's lines, those kept from the first part come before those kept from the rest |
| TableText.NoPipeRejected | app.py:88-89 | the text is rejected as not markdown if and only if it has no pipe |
| TableText.ShortTableRejected | app.py:90-92 | the text is rejected as too short if and only if it has a pipe and fewer than three lines are kept |
| TableText.SuccessIff | app.py:88-100 | conversion succeeds if and only if there is a pipe, at least three lines are kept, and every kept line has as many cells as the header line |
| TableText.ParseSuccessIff | app.py:95-100 | the parse of the kept lines succeeds if and only if every line has the header's number of cells |
| TableText.RowWidthNamesFirstMismatch | app.py:95-100 | a width failure names the first kept line whose number of cells differs from the header's |
| TableText.SuccessColumns | app.py:96-97 | on success, the columns are the header's cells without the first and last, each stripped |
| TableText.SuccessRows | app.py:95-98 | on success, every row has one cell per column and at least one value; each row is a later kept line's cells without the first and last; every later line with a value yields a row; there are no more rows than data lines |
| TableText.ParseRows | app.py:95-98 | the same row facts, stated for the parse of a given sequence of kept lines |
| TableText.DataRowsInOrder | app.py:98 | dropping all-empty rows keeps the survivors in input order: the rows of a prefix of the records come first |
| TableText.OuterPipeTable | app.py:87-100 | a four-line table with outer pipes (header h1, h2, padded or not; a divider row; rows a, b and c, d; values free of pipes, line ends and `---`, single dashes allowed; a and c non-empty, so that neither row is all-empty) converts to columns `[strip(h1), strip(h2)]` and rows `[[a, b], [c, d]]` |
| TableText.BarePipeTable | app.py:96 | a three-line two-column table without outer pipes converts to no column and no row |
| TableText.BarePipeTableDividerLast | app.py:87-100 | the same bare table followed by a divider row as its last line loses the divider and again converts to no column and no row |
| TableText.DividerLastExample | app.py:87-100 | the literal four-line text with the bare header H1, H2, the bare rows A, B and C, D and a final divider row converts to no column and no row |
| TableText.TwoCellHeaderLeavesNothing | app.py:96-98 | whenever conversion succeeds with a two-cell header, the result has no column and no row |
| TableText.HeaderOnlyExample | app.py:90-92 | a bare header line followed by a divider row alone is rejected as too short |
| LabelDoc.Layout | app.py:109-114 | the paragraphs `generar_docx` writes, as a function; no contract of its own; `LabelDoc.GenerateDocx` is proved equal to it, and its properties are in `LabelDoc.LayoutIsConcat`, `LabelDoc.LayoutAppend`, `LabelDoc.LayoutSize`, `LabelDoc.LayoutEnds` and `LabelDoc.ParagraphsHaveNoBreak` |
| LabelDoc.Block | app.py:112-114 | the paragraphs of one label: its lines, then the rule; no contract of its own; used by `LabelDoc.LayoutIsConcat` and `LabelDoc.LayoutSize` |
| LabelDoc.Rule | app.py:114 | the rule that closes a label is forty dashes |
| LabelDoc.Document.AddParagraph | app.py:113-114 | adding a paragraph appends it to the document and changes nothing else |
| LabelDoc.AddLines | app.py:112-113 | the inner loop appends the lines of one label, in order |
| LabelDoc.GenerateDocx | app.py:109-114 | the nested loops produce exactly the layout of the labels |
| LabelDoc.LayoutIsConcat | app.py:111-114 | the layout is the concatenation, over the labels in order, of each label's lines followed by one rule |
| LabelDoc.LayoutAppend | app.py:111 | laying out two label lists one after the other equals laying out their concatenation |
| LabelDoc.LayoutSize | app.py:111-114 | the paragraph count is the total number of label lines plus the number of labels |
| LabelDoc.LayoutEnds | app.py:111-114 | no labels give no paragraphs, and any labels give a document that ends with a rule |
| LabelDoc.ParagraphsHaveNoBreak | app.py:112-113 | no paragraph holds a line break |
| LabelDoc.TwoLabels | app.py:111-114 | a two-line label followed by a one-line label gives its two lines, a rule, the other line and a rule |

## Left out

- `obtener_respuesta_gemini`, which builds the prompt and calls the hosted model, is not part of this model. It is a foreign, non-deterministic call. Segmentation takes the reply text as its input.
- The `secrets.toml` loading and the model configuration are not modelled. They are file I/O and global set-up.
- The Streamlit interface and session state are not modelled. This includes the Excel upload with `pd.read_excel` and its `to_markdown` rendering.
- `generar_excel` is not modelled. It is a thin writer around a library with no logic of its own.
- The `BytesIO` buffer and `doc.save` are not modelled. `GenerateDocx` returns the paragraph sequence, and the binary .docx serialisation is left out.
- LabelDoc.GenerateDocx: always succeeds. python-docx's `add_paragraph` raises a `ValueError` for characters XML forbids, such as NUL, `\x07` or `\x1f`. That failure is not modelled.
- Whitespace: `Text.Strip` removes the ASCII whitespace characters Python's `strip()` removes. It does not remove other Unicode whitespace such as U+00A0 or U+2028.
- Line ends: `Text.SplitLines` breaks lines at `"\n"` and `"\r\n"` only. Python's `splitlines()` also breaks at a lone `"\r"`, `"\v"`, `"\f"`, `"\x1c"`–`"\x1e"`, `"\x85"` and the Unicode line and paragraph separators.
- TableText.ParseLines: `pd.read_csv(sep="|")` is modelled as a plain cut at every pipe. Any line whose number of cells differs from the header's is rejected as `RowWidth`. pandas pads a shorter line with missing values instead of failing. It also turns a header shorter by one into an index column. Neither is modelled.
- TableText.ParseLines: pandas quoting, escape characters, dtype inference and the `reset_index` row numbering are left out. So is the renaming of empty or duplicate header names, such as `Unnamed: 1` or `x.1`. Column names are the stripped header cells as text.
- TableText.HasValue: a cell counts as missing only when it is empty. pandas also reads markers such as `NA`, `NaN`, `null` or `None` as missing.
- The generic `Exception` handler at `app.py:99-100` is modelled only for the width mismatch, which is the parse failure the simplified cut can produce.

## Notes

- `Split` cuts at the leftmost occurrence and resumes after it, as Python's `str.split` does.
- The section markers are therefore counted with `Occurrences`. These lemmas rely on neither marker being able to overlap itself, which is proved: `MarkersDoNotOverlap`.
