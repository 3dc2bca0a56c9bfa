# Leaf labelling for a phylogenetic tree, modelled in Dafny

`print_trees.py` reads a tab-separated metadata file into a dictionary, walks
every leaf of a Newick tree, renames each leaf after its metadata (or, for the
two reserved identifiers `NP_Unk01` and `NP_Unk02`, clears its name and
attaches a red text face), and shows the tree. This project models the three
pieces of logic in that script and proves what they do.

- `results.dfy` — `Result`, for the load and lookup errors the script raises,
  and `Option`, for the reference function `LastRowFor`.
- `text.dfy` — the string operations the script relies on: `str.replace(c, '')`
  (`RemoveChar`), `str.split(sep)` (`Split`) and its inverse `str.join`
  (`Join`), with both round trips proved.
- `metadata_table.dfy` — the metadata loader. `LoadTable` is the loop of
  lines 4-8. It reads the file as a sequence of lines, header first, and
  inserts one entry per data line into a `map`. It is proved equal to the
  specification function `Load`. The lemmas prove four things: the header is
  ignored; the load fails exactly at the first line that does not split into
  six fields; the last line with a given seqname wins; and the `gene` column is
  dropped.
- `labels.dfy` — `Resolve`, the label decision of lines 12-23 as a pure
  function. It returns `Styled(face)`, `Plain(text)` or `Unknown(name)`, where
  `Unknown(name)` stands for the script's `KeyError`.
- `annotator.dfy` — the leaf loop of lines 11-23. Leaves are objects of
  class `Leaf` with a `name` and a list of attached `faces`. `AnnotateLeaves`
  updates them in place, one leaf per iteration.
- `scenarios.dfy` — worked examples: a two-row file, both label templates, a
  reserved leaf against an empty table, and a five-column row.

Two details of the script that the model keeps:
- Line 7 removes every `'\n'` in a line, not only a trailing one (`RemoveChar`).
- The script raises Python's `ValueError` on a bad row and `KeyError` on an
  unknown leaf. The model returns `MalformedRow(line, fieldCount)` and
  `Unknown(name)` / `KeyError(index, name)`; the line and leaf index are
  additions of the model. Both errors stop the run: a bad row fails the whole
  load, and an unknown leaf stops the loop with the earlier leaves already
  renamed.

## Model

| member | source | states |
|---|---|---|
| `Text.RemoveChar` | print_trees.py:7 | `line.replace('\n','')`: the result holds no `'\n'`, every other character keeps its number of occurrences, and a line without `'\n'` is unchanged |
| `Text.Split` | print_trees.py:7 | `split('\t')` yields one more field than there are tabs, and no field contains a tab |
| `Text.SplitThenJoin` | print_trees.py:7 | joining the fields of a split with a tab gives back the line: the split loses nothing |
| `Text.JoinThenSplit` | print_trees.py:7 | splitting tab-joined fields that contain no tab gives back exactly those fields |
| `MetadataTable.ParseRow` | print_trees.py:7-8 | a data line unpacks exactly when it holds five tabs (newlines do not matter); the key is its first column; otherwise the error names the line and its field count |
| `MetadataTable.LoadTable` | print_trees.py:4-8 | the header-skipping insertion loop returns exactly `Load(lines)`: the table, or the error of the first malformed line |
| `MetadataTable.ErrorSticks` | print_trees.py:6-7 | once a line fails to unpack, the outcome of the load is that error whatever follows |
| `MetadataTable.LoadIgnoresHeader` | print_trees.py:5-6 | replacing the header line by any other string leaves the table unchanged, so the header never contributes a key |
| `MetadataTable.PrefixFails` | print_trees.py:6-7 | loading the first n lines fails if and only if one of those data lines is malformed; the error names the first such line and its field count |
| `MetadataTable.LoadFails` | print_trees.py:6-7 | the whole load fails if and only if some data line does not have exactly six fields; the error names the first such line and its field count |
| `MetadataTable.LastRowFor` | print_trees.py:6-8 | reference definition: the last data line carrying a given seqname, or none when no data line carries it |
| `MetadataTable.PrefixKeepsLastRecord` | print_trees.py:6-8 | after loading the first n lines, a key is present if and only if some of those data lines carries it, and its record is the one parsed from the last such line |
| `MetadataTable.LoadKeepsLastRecord` | print_trees.py:6-8 | last write wins for the whole file: keys are exactly the seqnames of data lines, each mapped to the record of its last line |
| `MetadataTable.ParseJoinedRow` | print_trees.py:7-8 | a line made of six tab-joined columns (with or without its newline) is read as its seqname and the record (genename, spname, lineage, function); the `gene` column is dropped |
| `Labels.LabelColumns` | print_trees.py:22-23 | reference definition of the columns a plain label lists: gene name, `(function)` only under the `N/A` gene name, species, `(lineage)` — four columns under `N/A`, three otherwise |
| `Labels.PlainTextListsColumns` | print_trees.py:22-23 | both templates are the label columns joined by `", "`: gene name, `(function)` only under `N/A`, species, `(lineage)` |
| `Labels.Resolve` | print_trees.py:12-23 | a reserved name is styled if and only if it is `NP_Unk01` or `NP_Unk02`, with text `<id>, Aquifex aeolicus (Bacteria_Aquificae)`, size 10, red, column 0, whatever the table; any other name is `Unknown` if and only if it is absent from the table; otherwise the label is the column list of its record |
| `Labels.FunctionUnusedUnlessNotAvailable` | print_trees.py:21-23 | when the gene name is not `N/A`, changing the function column does not change the label |
| `Annotator.Annotate` | print_trees.py:12-23 | the effect of one iteration on a leaf: a reserved leaf's name becomes `""` and the styled face is appended; a known leaf takes its label and keeps its faces; an unknown leaf is unchanged |
| `Annotator.AnnotateLeaves` | print_trees.py:11-23 | the loop either finishes or stops with a KeyError at the first leaf whose name is neither reserved nor in the table; every leaf before that point is in the state `Annotate` gives it, and every leaf from that point on is unchanged |
| `Scenarios.TwoRowFile` | print_trees.py:4-8 | a header and two data rows load into a table with exactly those two entries |
| `Scenarios.GeneNameLabel` | print_trees.py:23 | the leaf `SeqA` with gene name `GeneX` is labelled `GeneX, Homo sapiens, (Eukaryota)` |
| `Scenarios.NotAvailableLabel` | print_trees.py:22 | the leaf `SeqB` with gene name `N/A` is labelled `N/A, (transporter), Mus musculus, (Eukaryota)` |
| `Scenarios.ReservedLeafWithEmptyTable` | print_trees.py:12-15 | the leaf `NP_Unk01` gets an empty name and the red size-10 face at column 0 even when the table is empty |
| `Scenarios.FiveColumnsRejected` | print_trees.py:7 | a data row with five columns fails to unpack, reporting five fields |
| `Scenarios.FiveColumnRowFails` | print_trees.py:6-7 | such a row makes the whole load fail at that row, whatever follows it |

## Left out

- Opening the metadata file at its fixed path and reading it (line 3, and the
  `readline`/`readlines` calls of lines 5-6): the file is given as its
  sequence of lines. Failing to open or read the file is not modelled.
  Python's newline translation in text mode is not modelled either.
- Parsing the Newick file with `ete3.Tree` (line 10): the tree is given as the
  sequence of its leaf objects in iteration order. These are distinct nodes,
  and `AnnotateLeaves` requires that. Internal nodes are not visited by the
  loop and are not modelled.
- `TextFace` and `add_face` (lines 14-15, 18-19): a face is only the record
  (text, font size, colour, column), appended to the leaf's list of faces.
  How ete3 stores faces per position and renders them is not modelled.
- `tree.show()` (line 24): an interactive render with no stateable result.
  When the loop stops with a KeyError, the model, like the script, goes no
  further.
- Characters are Dafny `char`s, which are Unicode scalar values. A Python
  string can also hold lone surrogate code points (for example after
  `surrogateescape` decoding); such strings are not modelled.
