# Plate layout and injection sequences, modelled in Dafny

This project models the core of a laboratory web application. The application plans a 96-well (8 x 12)
mass-spectrometry sample plate and exports that plan to instrument files.

**The plate.** The plate is filled with a cohort name. Lines of the form `Label;Location` then
override single wells (`Pool;A7`), whole rows (`Cohort_2;RowD`) or whole columns
(`Cohort_2;Col8`). The annotation language has two versions, and both are modelled:

- `process_plate_positions` in func/plate_plot.py.
- The older `plate_design_tab` in tabs/plate_tab.py.

Each version is a method that follows the source loop by loop. The method is proved equal to a
functional specification (`PlatePlot.Process`, `PlateTab.Design`). Lemmas about that specification
state what the user sees:

- which warnings appear, and exactly when;
- when the function raises instead of returning;
- which label ends up in each well.

Both versions put every row and column directive into one list, together with the single-well
lines. The frame is then written in list order, and the last write to a well wins. The
difference is the order of that list:

- func/plate_plot.py *prepends* the expanded entries, so single-well lines win over Row/Col
  directives, and an earlier directive wins over a later one.
- tabs/plate_tab.py *appends* them, so directives win over single-well lines, and a later
  directive wins over an earlier one.

The frame is a class with the cells it updates in place (`PlateFrames.PlateFrame`). Its long form
(`create_plate_df_long`) lists the filled cells row by row.

**The exports.** Several tabs of web.py build tables from the long form:

- **Xcalibur sample sequence.** Each well gets a source vial, its rank counted from 1. Wells
  labelled `EMPTY` are dropped. Each remaining well gets an autosampler position and a file name.
  The samples may be shuffled; a shuffle is an explicit permutation. A wash row goes after every
  block of eight samples, except for SRM/PRM. A QC block goes on each side, and the QC-between
  blocks around everything. The CSV text gets a `Bracket Type=4` header and a byte-order mark.
- **Evosep Chronos table.** The iRT calibration runs come first, then the sample runs, then the
  optional standby and prepare command rows. The XML export sanitizes the column names.
- **SDRF header and Skyline columns.** The SDRF header is built from the sample characteristics,
  the data-file comments with the enzyme columns moved after `technical replicate`, and the
  factor value. The Skyline annotation columns are read back from it.

**Behaviour worth knowing.** Where the source raises an exception, the model returns a `Failure`:

- A plate whose wells are all labelled `EMPTY` makes the injection tab raise at the file-name
  column. pandas' `apply` on a frame without rows probes the file-name builder with a row of
  missing values. `"_".join` rejects that row, so `apply` returns a copy of the frame instead of
  a column, and storing a whole frame into the one column `File Name` raises.
- `pd.concat([])` in the wash insertion raises on an empty sample list, for SRM/PRM too,
  because the wash insertion runs before the technique check. The sequence model keeps this
  failure for a sample list given to it directly.
- Writing the standby and prepare command rows into a table with fewer than two rows raises
  `IndexError`.
- Unpacking a line with two or more `;` into label and location raises.
- Reading a column that is not an integer literal raises.

Warnings are returned as a list, in the order the source shows them.

**Behaviours a reader might not expect.**

- In func/plate_plot.py, single-well lines override directives wherever they stand, and the
  earliest directive wins.
- The "different labels" check compares the location *text*, not the well. `X;A7` followed by
  `Y;A07` writes both labels into well A7, the later one silently wins, and no warning is shown
  (`PlateAnnotations.SameWellHidesConflict`, `PlateAnnotations.LeadingZeroExample`).

## Model

| member | source | states |
|---|---|---|
| PlateFrames.Frame.Set | func/plate_plot.py:144 | `df.at[row, col] = text` sets that one cell and leaves every other cell alone; it keeps a valid frame valid, and keeps a full plate full when the cell is on the plate |
| PlateFrames.FilledFrame | func/plate_plot.py:135-136 | the default frame is exactly rows A–H by columns "1"–"12", and every cell holds the sample name |
| PlateFrames.PlateFrame.Filled | func/plate_plot.py:135-136 | the constructed frame object holds the default-filled plate |
| PlateFrames.PlateFrame.SetAt | func/plate_plot.py:144 | the in-place cell write changes the frame exactly as `Frame.Set` does |
| PlateFrames.LongFormatRowMajor | func/plate_plot.py:8-11 | the long form of a full plate has 96 triples, and triple 12·i+j is (row i, column j, that cell's label): row-major order |
| PlateFrames.LongFormatMembers | func/plate_plot.py:8-11 | for any valid frame, a triple is in the long form iff its cell is filled with that label |
| PlateAnnotations.ColRowFilterMembers | func/plate_plot.py:100-102 | a line is among the Row/Col lines iff it is in the input and contains `Col` or `Row`, and among the single-well lines iff it is in the input and contains neither |
| PlateAnnotations.ColRowDirectPartition | func/plate_plot.py:100-102 | the two filters together keep every line exactly as often as it occurs |
| PlateAnnotations.RowEntries | func/plate_plot.py:109-112 | a `RowX` directive yields 12 entries |
| PlateAnnotations.ColEntries | func/plate_plot.py:113-115 | a `ColN` directive yields 8 entries |
| PlateAnnotations.ExpandAll | func/plate_plot.py:105-119 | expanding the directives warns only about invalid format or invalid position; the only exception is the unpacking error, and only when some line holds two or more `;` |
| PlateAnnotations.GeneratedEntry | func/plate_plot.py:112 | a generated entry `text;Ld` holds one `;` and splits back into the directive's label and the location `Ld` |
| PlateAnnotations.ExpandAllAppend | func/plate_plot.py:105-119 | when nothing raises, expanding two blocks of lines gives the entries and warnings of each block, one after the other |
| PlateAnnotations.ExpandAllNext | func/plate_plot.py:105-119 | one more directive line adds its own entries and warnings to those of the lines before it |
| PlateAnnotations.ExpandAllErrorPersists | func/plate_plot.py:107 | once a line raises, the lines after it change nothing |
| PlateAnnotations.ExpandAllRaises | func/plate_plot.py:107 | a directive line with two or more `;` makes the expansion raise the unpacking error |
| PlateFrames.ColumnLabelsDecimal | func/plate_plot.py:136 | `str(k)` for k in 1..12 is the k-th column label |
| PlateAnnotations.GeneratedWrite | func/plate_plot.py:141-144 | an entry `text;Ld` with d in 1..12 and L in A–H writes `text` into cell (L, str(d)) |
| PlateAnnotations.RowEntriesWrite | func/plate_plot.py:109-112 | every entry of a valid `RowX` directive writes its label into a cell of the plate |
| PlateAnnotations.ColEntriesWrite | func/plate_plot.py:113-115 | every entry of a valid `ColN` directive writes its label into a cell of the plate |
| PlateAnnotations.DirectiveWrites | func/plate_plot.py:105-117 | every entry that a Row/Col line expands to writes that line's label into a cell of the plate |
| PlateAnnotations.ExpandedWrites | func/plate_plot.py:105-119 | the expansion never writes outside the 8 x 12 plate |
| PlateAnnotations.StepsOfAppend | func/plate_plot.py:139-144 | the writes of two lists in a row are the writes of each list, in order |
| PlateAnnotations.StepsOfReverse | func/plate_plot.py:112 | the writes of a reversed list are the writes of the list, reversed |
| PlateAnnotations.LastWriteAppend | func/plate_plot.py:139-144 | the last write to a cell comes from the second part if that part writes the cell, else from the first |
| PlateAnnotations.LastWriteReverse | func/plate_plot.py:112 | read backwards, the last write to a cell is the first one |
| PlateAnnotations.LastLabelAppend | func/plate_plot.py:139-144 | the last label written to a cell comes from the second list if that list writes the cell, else from the first |
| PlateAnnotations.LastLabelReverse | func/plate_plot.py:112 | after the prepending loop reverses a block, its last label for a cell is the block's first |
| PlateAnnotations.FirstWriteAppend | func/plate_plot.py:139-144 | the first write to a cell comes from the first part if that part writes the cell |
| PlateAnnotations.FirstLabelAppend | func/plate_plot.py:139-144 | the first label written to a cell comes from the first list if that list writes the cell |
| PlateAnnotations.WriteEntries | func/plate_plot.py:139-144 | the write loop leaves the frame as the specification of the writes does, or stops with its exception |
| PlateAnnotations.ApplyStepsFailurePersists | func/plate_plot.py:139-144 | once a write raises, the items after it change nothing |
| PlateAnnotations.ApplyStepsLastWins | func/plate_plot.py:139-144 | after the writes, a cell holds the label of the last step that writes it, or its old value if none does |
| PlateAnnotations.ApplyWritesLastWins | func/plate_plot.py:139-144 | after writing the list in order, a cell holds the label of the last item naming it, or its old value |
| PlateAnnotations.ApplyStepsKeepPlate | func/plate_plot.py:134-144 | writes into plate cells keep the frame a full, valid 8 x 12 plate |
| PlateAnnotations.ApplyStepsFails | func/plate_plot.py:139-144 | the writes fail iff some step fails, and then with the error of the first failing step |
| PlateAnnotations.ApplyWritesNoUnpack | func/plate_plot.py:141 | items with at most one `;` never raise the unpacking error |
| PlateAnnotations.CheckConflicts | func/plate_plot.py:126-132 | the `pos_list` loop over `set(replace_pos)` equals its specification, whatever order the set is walked in |
| PlateAnnotations.PositionCount | func/plate_plot.py:131 | taking locations never adds elements, and loses one exactly when two entries share a location |
| PlateAnnotations.CollectStep | func/plate_plot.py:127-130 | adding an entry's location to `pos_list` keeps it in step with the set of entries seen |
| PlateAnnotations.SamePositionDifferentLabel | func/plate_plot.py:131-132 | two distinct one-`;` entries with the same location have different labels |
| PlateAnnotations.ConflictWarningIff | func/plate_plot.py:126-132 | the "different labels" check fires iff two distinct entries with one `;` share the location text after it and have different labels (it compares text, so `A7` and `A07` do not conflict) |
| PlateAnnotations.SameWellHidesConflict | func/plate_plot.py:125-144 | two entries whose column digits differ as text but not in value (`7`, `07`) write their labels into the same well, yet the "different labels" check does not fire |
| PlateAnnotations.LeadingZeroExample | func/plate_plot.py:125-144 | for `X;A7` then `Y;A07`, both write well A7 and the check returns no conflict |
| PlateAnnotations.DigitsLeadingZero | func/plate_plot.py:142 | `int` reads a digit string with a leading zero as the same value |
| PlateAnnotations.RepeatIff | func/plate_plot.py:122 | `len(s) != len(set(s))` iff some entry occurs twice |
| PlatePlot.NonBlank | func/plate_plot.py:91 | a line is kept iff it is in the input and does not strip to `''` |
| PlatePlot.FormatWarning | func/plate_plot.py:94-97 | there is no warning iff no line is badly formatted; otherwise there is exactly one warning, naming a badly formatted line |
| PlatePlot.CheckFormat | func/plate_plot.py:94-97 | the loop that breaks at the first bad line yields exactly that warning |
| PlatePlot.PrependRow | func/plate_plot.py:110-112 | inserting at the front twelve times puts the row's entries, reversed, before the list |
| PlatePlot.PrependColumn | func/plate_plot.py:114-115 | inserting at the front eight times puts the column's entries, reversed, before the list |
| PlatePlot.PrependDirective | func/plate_plot.py:105-119 | one directive line prepends its entries, warns, or raises, exactly as its expansion says |
| PlatePlot.PrependExpansions | func/plate_plot.py:104-119 | after the loop, the list is the reversed expansion followed by the single-well lines, with the expansion's warnings and exception |
| PlatePlot.CheckAndWrite | func/plate_plot.py:121-146 | the repeat check, the conflict check and the writes give the specified warnings and plate or exception |
| PlatePlot.ProcessPlatePositions | func/plate_plot.py:76-146 | the whole function returns the specified warnings and the specified plate and final list, or raises the specified exception |
| PlatePlot.DirectLinesWin | func/plate_plot.py:99-144 | a cell named by a single-well line holds the label of the last such line; otherwise it holds the label of the first directive naming it; otherwise the sample name |
| PlatePlot.EarlierDirectiveWins | func/plate_plot.py:105-115 | of two blocks of directives, the earlier block decides a cell it names |
| PlatePlot.ProcessedPlate | func/plate_plot.py:134-146 | when the single-well lines name plate cells, the result is a full 8 x 12 plate |
| PlatePlot.CheckedRepeatIff | func/plate_plot.py:122-123 | after the expansion, "mentioned more than once" is shown iff the final list repeats an entry |
| PlatePlot.RepeatWarningIff | func/plate_plot.py:89-123 | "mentioned more than once" is shown iff the final list holds some entry twice |
| PlatePlot.CheckedUnpackIff | func/plate_plot.py:126-144 | after the expansion, the unpacking exception is raised iff the final list holds an entry with two or more `;` |
| PlatePlot.CheckedConflictIff | func/plate_plot.py:126-132 | after the expansion, "different labels" is shown iff the conflict check finds a clash |
| PlatePlot.ConflictWarningIffProcess | func/plate_plot.py:89-132 | "different labels" is shown iff two distinct final entries with one `;` share the location text and have different labels |
| PlatePlot.UnpackErrorFromLine | func/plate_plot.py:107 | a line with two or more `;` makes the function raise the unpacking error |
| PlatePlot.UnpackErrorOnlyFromLine | func/plate_plot.py:107-141 | the unpacking error is only ever caused by such a line |
| PlatePlot.UnpackErrorIff | func/plate_plot.py:89-144 | the unpacking error is raised iff some input line holds two or more `;` |
| PlateTab.AppendRow | tabs/plate_tab.py:29-31 | appending twelve times puts the row's entries, in order, after the list |
| PlateTab.AppendColumn | tabs/plate_tab.py:32-34 | appending eight times puts the column's entries, in order, after the list |
| PlateTab.AppendDirective | tabs/plate_tab.py:25-38 | one directive line appends its entries, warns, or raises, exactly as its expansion says |
| PlateTab.AppendExpansions | tabs/plate_tab.py:24-38 | after the loop, the list is the single-well lines followed by the expansion, with the expansion's warnings and exception |
| PlateTab.CheckAndWrite | tabs/plate_tab.py:42-70 | the conflict check, the writes and the long form give the specified warnings and design or exception |
| PlateTab.PlateDesign | tabs/plate_tab.py:18-70 | from the text to the long form, the tab returns the specified warnings and design, or raises the specified exception |
| PlateTab.DirectivesWin | tabs/plate_tab.py:18-63 | a cell named by a directive holds the label of the last directive naming it; otherwise the last single-well line's label; otherwise the sample name |
| PlateTab.LaterDirectiveWins | tabs/plate_tab.py:24-34 | of two blocks of directives, the later block decides a cell it names |
| PlateTab.DesignedPlate | tabs/plate_tab.py:53-70 | when the single-well lines name plate cells, the result is a full plate and its long form has 96 row-major triples |
| PlateTab.NoRepeatWarning | tabs/plate_tab.py:42-50 | this version never shows "mentioned more than once" |
| PlateTab.WrittenConflictIff | tabs/plate_tab.py:44-50 | after the expansion, "different labels" is shown iff the conflict check finds a clash |
| PlateTab.ConflictWarningIffDesign | tabs/plate_tab.py:18-50 | "different labels" is shown iff two distinct entries with one `;` share the location text and have different labels |
| PlateTab.WrittenUnpackIff | tabs/plate_tab.py:44-63 | after the expansion, the unpacking exception is raised iff the list holds an entry with two or more `;` |
| PlateTab.UnpackErrorIffDesign | tabs/plate_tab.py:18-63 | the unpacking exception is raised iff some input line holds two or more `;` |
| Text.Count | func/plate_plot.py:95 | `item.count(';')` is at most the length, and 0 iff `;` is absent |
| Text.CountAppend | func/plate_plot.py:95 | counting in a concatenation adds the counts |
| Text.Split | func/plate_plot.py:90 | `split` gives one more piece than there are separators |
| Text.JoinSplit | func/plate_plot.py:90 | joining the pieces gives the text back, and no piece holds the separator |
| Text.SplitJoin | web.py:70 | splitting a join of separator-free parts gives the parts back |
| Text.SplitNoSeparator | func/plate_plot.py:107 | a text without the separator splits into itself alone |
| Text.SplitPrefix | func/plate_plot.py:107 | a separator-free head before the first separator becomes the first piece |
| Text.StripLeft | func/plate_plot.py:91 | it drops exactly the leading white space |
| Text.StripRight | func/plate_plot.py:91 | it drops exactly the trailing white space |
| Text.StripEmpty | func/plate_plot.py:91 | `s.strip() == ''` iff every character is white space |
| Text.StripNoSpace | func/plate_plot.py:91 | a text without white space strips to itself |
| Text.NatToDecimal | func/plate_plot.py:112 | `str(n)` is ASCII digits with value n and no leading zero |
| Text.DropUnderscores | func/plate_plot.py:143 | dropping the digit-group underscores leaves only digits, and changes nothing when there are none |
| Text.ParseIntDigits | func/plate_plot.py:143 | `int` reads a string of digits as its value |
| Text.ParseIntDecimal | func/plate_plot.py:143 | `int(str(i)) == i` |
| Text.ReplaceChars | web.py:91-94 | every character of `s.replace(pat, rep)` comes from `s` or `rep` |
| Text.ReplaceRemovesChar | web.py:91-94 | replacing a character with a text that lacks it leaves none of it |
| Text.ReplaceAbsentChar | web.py:91-94 | replacing an absent character changes nothing |
| Text.ReplaceCharAppend | web.py:1108-1111 | replacing a character distributes over concatenation |
| Text.ReplaceMissingChar | web.py:1108-1111 | a pattern holding a character the text lacks changes nothing |
| Text.ReplacePrefix | web.py:1108-1111 | a text that starts with the pattern has that occurrence replaced |
| Lists.Reverse | func/plate_plot.py:112 | reversing keeps the length |
| Lists.ReverseIndex | func/plate_plot.py:112 | element i of the reversal is element n-1-i |
| Lists.ReverseAppend | func/plate_plot.py:105-115 | reversing a concatenation reverses the two parts and swaps them |
| Lists.ReverseReverse | func/plate_plot.py:112 | reversing twice gives the sequence back |
| Lists.ReverseMembers | func/plate_plot.py:112 | reversing keeps the elements |
| Lists.PermuteKeepsRows | web.py:518 | `sample(frac=1)` keeps every row, as often as it occurs |
| Lists.DropLargest | web.py:518 | removing the largest index from a permutation leaves a permutation of one fewer |
| Lists.PermuteDropLast | web.py:518 | a shuffle is the shuffle of all but the last row, with the last row inserted |
| WebHelpers.EnsureBom | web.py:39-42 | the result starts with the mark; it is the input iff the input starts with the mark, and otherwise the mark followed by the input |
| WebHelpers.EnsureBomIdempotent | web.py:39-42 | adding the mark twice is adding it once |
| WebHelpers.FileNameParts | web.py:62-70 | a file name splits at `_` back into its five parts when no part holds `_` |
| WebHelpers.DownloadNameParts | web.py:73-74 | a download name ends with its suffix, and the rest splits back into the parts |
| WebHelpers.NumChunks | web.py:77-78 | the chunk count is the ceiling of n / size: zero iff n is zero |
| WebHelpers.ChunksProperties | web.py:77-78 | the chunks concatenate to the input; there are ceil(n / size) of them; all are full except the last, which is not empty |
| WebHelpers.ConcatWithWashLength | web.py:83-86 | each chunk adds the wash length once |
| WebHelpers.InsertWashLength | web.py:81-86 | the insertion raises iff the table is empty; otherwise it has n + ceil(n / size)·(wash length) rows |
| WebHelpers.InsertWashUnfold | web.py:81-86 | a short table gets one wash at its end; a longer one gets its first chunk, a wash, then the rest treated alike |
| WebHelpers.SanitizeXmlColumnsSafe | web.py:89-96 | every sanitized column name holds no space, slash or parenthesis, and the columns come back unchanged iff every name was already safe |
| WebHelpers.SanitizeNameSafe | web.py:89-96 | a sanitized name holds no space, slash or parenthesis |
| WebHelpers.SanitizeNameKeepsSafe | web.py:89-96 | a name without those characters is left as it is |
| WebHelpers.SanitizeIdempotent | web.py:89-96 | sanitizing twice is sanitizing once |
| Xcalibur.InjectionLetter | web.py:326 | the letter is empty iff the colour is not Red, Green or Blue, and otherwise the colour's first letter |
| Xcalibur.NumberedVials | web.py:315 | the wells get vials 1 .. n in plate order, each vial exactly once (strictly increasing), and keep their well name and sample |
| Xcalibur.DropEmptyMembers | web.py:317 | a row is kept iff it is in the table and its sample is not `EMPTY` |
| Xcalibur.DropEmptyKeepsOrder | web.py:317 | the filter keeps rows ordered by increasing vial |
| Xcalibur.DropEmptyNoEmpty | web.py:635-637 | filtering a table without `EMPTY` rows changes nothing |
| Xcalibur.AnnotatePlate | web.py:315-408 | the column assignments, made one after the other, produce the annotated table, or raise at the file-name column when no well is left after the `EMPTY` filter |
| Xcalibur.AnnotateFailsIffAllEmpty | web.py:315-408 | the injection tab raises exactly when every well of the plate is labelled `EMPTY`, a plate without wells included |
| Xcalibur.AnnotatedRowsAreSamples | web.py:315-408 | every annotated row is a non-`EMPTY` well of the long table at its vial; its position is the letter followed by the well; its file name is built from the bare well name |
| Xcalibur.AnnotatedCoversSamples | web.py:315-317 | every non-`EMPTY` well appears, with vial = its rank |
| Xcalibur.AnnotatedVialsIncrease | web.py:315-317 | the annotated rows keep plate order: their vials increase |
| Xcalibur.AssembleSequence | web.py:431-553 | the step-by-step assembly equals the specified sequence of the shuffled samples |
| Xcalibur.XcaliburLength | web.py:539-553 | the sequence fails iff there is no sample, SRM/PRM included; otherwise it holds the samples, one wash per started block of eight (none for SRM/PRM), five service rows, and four more with QC between samples |
| Xcalibur.WashedEveryEightStep | web.py:537-539 | eight samples and a wash in front of a correctly washed rest make a correctly washed whole |
| Xcalibur.WashedEveryEightShort | web.py:537-539 | one to eight samples followed by a wash are correctly washed |
| Xcalibur.WashEveryEight | web.py:537-539 | sample i sits at i + i/8, every ninth row is a wash, and the last row is a wash |
| Xcalibur.XcaliburLayout | web.py:539-553 | the first row is the wash (suffixed `_1` with QC between); QC and wash come right before the samples; sample i sits at lead + i + i/8, or lead + i for SRM/PRM; the QC block follows them; with QC between, the last row is the wash suffixed `_2` |
| Xcalibur.DrawnKeepsSamples | web.py:516-520 | shuffling keeps every sample injection |
| Xcalibur.ExportText | web.py:558-560 | the CSV text is the mark, the `Bracket Type=4,,,,` line, then the table |
| Chronos.EvoSlot | web.py:617 | the tray name is `EvoSlot ` followed by the decimal slot number |
| Chronos.SampleRuns | web.py:625-642 | one run per non-`EMPTY` row, all on the sample tray with the Xcalibur sample method |
| Chronos.SampleRunsFromRows | web.py:634-642 | every sample run comes from a non-`EMPTY` row, with that row's vial and file name |
| Chronos.SampleRunsKeepAnnotated | web.py:634-637 | the annotated table holds no `EMPTY` well, so the Evosep filter keeps all of it |
| Chronos.IrtRuns | web.py:715-733 | there are as many iRT runs as requested |
| Chronos.IrtRunsDistinct | web.py:717-731 | iRT run i uses vial i + 1 on the iRT tray, and no two iRT runs share a name |
| Chronos.RunCells | web.py:746-769 | a run row has the twelve Chronos columns |
| Chronos.CommandRows | web.py:771-783 | there are two command rows of twelve cells |
| Chronos.BuildChronosTable | web.py:580-787 | the step-by-step Evosep tab produces the specified Chronos table or IndexError |
| Chronos.RunsShape | web.py:644-741 | the runs are the iRT runs, then the sample runs in drawn order |
| Chronos.AssembleShape | web.py:771-787 | the table fails iff commands are asked for and there are fewer than two runs; otherwise it is the run rows, then the two command rows with standby, prepare and the idle-flow cells |
| Chronos.AssembleRows | web.py:785-787 | a successful table starts with the rows of the runs |
| Chronos.ChronosShape | web.py:580-787 | the Chronos table fails iff commands are asked for with fewer than two runs; it has 12 columns and runs + 2 rows with commands |
| Chronos.ChronosIrtFirst | web.py:715-738 | row i of the table, for i below the iRT count, is iRT vial i + 1 named `<name>_<i+1>` with the iRT method |
| Chronos.IrtRows | web.py:736-738 | runs that start with the iRT runs give a table whose first rows are those runs |
| Chronos.AssembleRow | web.py:746-769 | row i of a successful table holds the cells of run i |
| Chronos.ChronosKeepsSamples | web.py:644-650 | after the iRT rows the table holds the rows of the drawn runs, and those are the sample runs' rows, each exactly as often as in the sample table |
| Chronos.PermutedRows | web.py:647 | the rows of shuffled runs are a rearrangement of the runs' rows |
| Chronos.SameRows | web.py:650 | unshuffled runs give the sample rows unchanged |
| Chronos.EvosepXmlColumns | web.py:821-824 | the XML export has one column per Chronos column, none holding a space, slash or parenthesis |
| Sdrf.AddEnzymeColumns | web.py:957-960 | the loop appends the enzyme columns after the data-file columns, numbered from 0 |
| Sdrf.EnzymeColumnsDistinct | web.py:959 | the enzyme columns are distinct, and none is a data-file column |
| Sdrf.CleavageNameIsCleavage | web.py:966-970 | every enzyme column passes the `startswith("cleavage agent details")` test |
| Sdrf.BaseIsNotCleavage | web.py:931-953 | no data-file column passes that test |
| Sdrf.CleavageCols | web.py:966-970 | the enzyme filter never adds columns |
| Sdrf.OtherCols | web.py:971-975 | the other filter never adds columns |
| Sdrf.CleavageColsAppend | web.py:966-970 | the enzyme filter distributes over concatenation |
| Sdrf.OtherColsAppend | web.py:971-975 | the other filter distributes over concatenation |
| Sdrf.FilterMembers | web.py:966-975 | a column is kept by the enzyme filter iff it passes the test, and by the other filter iff it does not |
| Sdrf.FiltersSplit | web.py:966-975 | the two filters together keep every column as often as it occurs |
| Sdrf.AllCleavage | web.py:966-970 | columns that all pass are kept whole by the enzyme filter |
| Sdrf.NoCleavage | web.py:971-975 | columns that all fail are kept whole by the other filter |
| Sdrf.IndexOf | web.py:979 | `list.index` is the first position holding the value |
| Sdrf.CleavageCut | web.py:978-988 | the cut never passes the end of the other columns |
| Sdrf.ReorderKeepsColumns | web.py:985-990 | the reorder keeps every column as often as it occurs |
| Sdrf.ReorderKeepsOrder | web.py:985-990 | the reorder keeps the order of the enzyme columns and the order of the others |
| Sdrf.ReorderAfterTechnicalReplicate | web.py:978-990 | with a `technical replicate` column, the enzyme columns come right after it |
| Sdrf.TechnicalReplicateAtSix | web.py:931-953 | `technical replicate` is the seventh data-file column |
| Sdrf.DataFileColumnOrder | web.py:931-990 | the reordered data-file columns are the first seven, the enzymes, then the other seven |
| Sdrf.SdrfLayout | web.py:886-1018 | the header is source name, the 22 characteristics, material type, assay name, technology type, the data-file comments (enzymes after technical replicate, then the scan ranges or ProteomeEdge), then the factor value |
| Sdrf.AssayNames | web.py:925-927 | there is one assay name per row |
| Sdrf.AssayNamesDistinct | web.py:925-927 | assay name i is `run ` followed by i + 1, and no two are equal |
| Sdrf.SdrfFactorChoices | web.py:1009-1018 | the factor value column can be built iff the chosen column is a sample property |
| Sdrf.CharacteristicInjective | web.py:920 | different names give different characteristics columns |
| Sdrf.SkylineColumns | web.py:1100-1111 | the Skyline columns are never more than the SDRF columns |
| Sdrf.SkylineNameInverse | web.py:1108-1111 | the rename undoes the `characteristics[...]` wrapping of a bracket-free name |
| Sdrf.SamplePropColumnsBracketFree | web.py:886-917 | no sample property holds a bracket |
| Sdrf.SkylineColumnsAppend | web.py:1100-1103 | taking the Skyline columns distributes over concatenation |
| Sdrf.SkylineOfCharacteristics | web.py:1100-1111 | from characteristics columns of bracket-free names, Skyline gets the names back |
| Sdrf.SkylineOfComments | web.py:1100-1103 | comment columns give no Skyline column |
| Sdrf.SkylineRecoversSampleProperties | web.py:1100-1111 | the Skyline columns of an SDRF header are exactly the sample properties, in order |

## Left out

- Plotting, the heat map and count plot (`plate_dfplot`), the Streamlit widgets, the agent chat and the sidebar. They only display data or take input.
- Serialization to CSV, TSV and XML text (`to_csv`, `_create_xml_from_dataframe`). The tables are modelled as rows of cells. The CSV text is modelled only as the header line and the mark in front.
- The clock: the injection date and the download time stamps are input strings.
- The cell values that are numbers in the source: the injection volume is text, and the vials are naturals.
- Randomness: `sample(frac=1)` is an explicit permutation argument.
- The interactive edits of `st.data_editor` and the uploaded SDRF replacing the generated one: the model uses the generated table.
- The rename of `comment[cleavage agent details<i>]` back to a single name in the first line of the TSV text (web.py:1039-1044). It edits serialized text, which is not modelled.
- The SDRF data rows (the repeated cell values). Only the SDRF header and the Skyline columns are modelled.
- Chunk sizes other than positive ones: the source always passes 8.
- `str.isdigit` and `int` on non-ASCII digits: only ASCII digits are modelled.
- tabs/plate_tab.py reads `sample_name` and `plate_id` without defining them (lines 8-13). The model takes the sample name as a parameter.
- The session-state hand-over between tabs: the long table and the sample order are parameters.
