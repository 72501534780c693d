/** The Evosep tab of web.py: the Chronos table of iRT calibration runs,
    sample runs and the optional standby and prepare commands. */
module Chronos {
  import opened Wrappers
  import opened Text
  import opened Lists
  import opened WebHelpers
  import opened Xcalibur

  /** The twelve columns of a Chronos table, in order. */
  const ChronosColumns: seq<string> := [
    "Analysis Method", "Source Tray", "Source Vial", "Sample Name", "Xcalibur Method",
    "Xcalibur Filename", "Xcalibur Post Acquisition Program", "Xcalibur Output Dir",
    "Comment", "Pump preparation", "Align solvents", "Flow to column / idle flow"]

  /** The tray name of an Evosep slot. */
  function EvoSlot(slot: nat): (r: string)
    ensures |r| > 8 && r[..8] == "EvoSlot " && IsDigits(r[8..]) && DigitsValue(r[8..]) == slot
  {
    var d := NatToDecimal(slot);
    assert ("EvoSlot " + d)[8..] == d;
    "EvoSlot " + d
  }

  /** A run before the Chronos columns are added. */
  datatype EvosepRow = EvosepRow(sourceTray: string, sourceVial: nat, sampleName: string, xcaliburMethod: string)

  /** What the user enters on the Evosep tab. An iRT count of zero means no
      calibration runs; `commands` holds the standby and prepare command
      files when they are asked for. */
  datatype ChronosSettings = ChronosSettings(
    analysisMethod: string, outputDir: string, comment: string,
    slot: nat, xcaliburMethod: string,
    irtCount: nat, irtSlot: nat, irtName: string, irtMethod: string,
    commands: Option<(string, string)>)

  /** The sample runs: the annotated rows that are not empty wells, each
      read from the chosen slot with its vial, its file name as the sample
      name, and the sample method. */
  function SampleRuns(rows: seq<SampleRow>, slot: nat, methodFile: string): (r: seq<EvosepRow>)
    ensures |r| == |DropEmpty(rows)|
    ensures forall i :: 0 <= i < |r| ==> r[i].sourceTray == EvoSlot(slot) && r[i].xcaliburMethod == methodFile
  {
    var kept := DropEmpty(rows);
    seq(|kept|, i requires 0 <= i < |kept| =>
      EvosepRow(EvoSlot(slot), kept[i].sourceVial, kept[i].fileName, methodFile))
  }

  /** Every sample run comes from a row that is not an empty well, with its
      vial and with its file name as the sample name. */
  lemma SampleRunsFromRows(rows: seq<SampleRow>, slot: nat, methodFile: string)
    ensures forall x :: x in SampleRuns(rows, slot, methodFile) ==>
              exists y :: y in rows && y.sample != EmptyWellLabel
                          && x.sourceVial == y.sourceVial && x.sampleName == y.fileName
  {
    var kept := DropEmpty(rows);
    DropEmptyMembers(rows);
    var r := SampleRuns(rows, slot, methodFile);
    forall x | x in r
      ensures exists y :: y in rows && y.sample != EmptyWellLabel
                          && x.sourceVial == y.sourceVial && x.sampleName == y.fileName
    {
      var i :| 0 <= i < |r| && r[i] == x;
      assert kept[i] in rows;
    }
  }

  /** The annotated table holds no empty well, so the Evosep filter keeps
      every row. */
  lemma SampleRunsKeepAnnotated(long: seq<PlateFrames.LongEntry>, s: Settings, slot: nat, methodFile: string)
    ensures |SampleRuns(Annotated(long, s), slot, methodFile)| == |Annotated(long, s)|
  {
    var a := Annotated(long, s);
    AnnotatedRowsAreSamples(long, s);
    assert forall i :: 0 <= i < |a| ==> a[i] in a;
    DropEmptyNoEmpty(a);
  }

  /** The iRT calibration runs: vials 1 .. k of the iRT slot, named after
      the iRT sample with the vial appended. */
  function IrtRuns(k: nat, slot: nat, name: string, methodFile: string): (r: seq<EvosepRow>)
    ensures |r| == k
  {
    seq(k, i requires 0 <= i < k =>
      EvosepRow(EvoSlot(slot), i + 1, name + "_" + NatToDecimal(i + 1), methodFile))
  }

  /** The iRT runs use vials 1 .. k in order, and no two share a name. */
  lemma IrtRunsDistinct(k: nat, slot: nat, name: string, methodFile: string)
    ensures var r := IrtRuns(k, slot, name, methodFile);
            && (forall i :: 0 <= i < k ==> r[i].sourceVial == i + 1 && r[i].sourceTray == EvoSlot(slot))
            && (forall i, j :: 0 <= i < j < k ==> r[i].sampleName != r[j].sampleName)
  {
    var r := IrtRuns(k, slot, name, methodFile);
    forall i, j | 0 <= i < j < k
      ensures r[i].sampleName != r[j].sampleName
    {
      var p := name + "_";
      var a, b := NatToDecimal(i + 1), NatToDecimal(j + 1);
      assert DigitsValue(a) != DigitsValue(b);
      assert r[i].sampleName[|p|..] == a && r[j].sampleName[|p|..] == b;
    }
  }

  /** The twelve cells of a run row: the file name doubles as the Xcalibur
      file name, the post-acquisition and last three columns are blank. */
  function RunCells(x: EvosepRow, c: ChronosSettings): (r: seq<string>)
    ensures |r| == |ChronosColumns|
  {
    [c.analysisMethod, x.sourceTray, NatToDecimal(x.sourceVial), x.sampleName, x.xcaliburMethod,
     x.sampleName, "", c.outputDir, c.comment, "", "", ""]
  }

  function Blanks(n: nat): (r: seq<string>)
    ensures |r| == n && forall i :: 0 <= i < n ==> r[i] == ""
  {
    seq(n, _ => "")
  }

  /** The two command rows: the standby command alone, and the prepare
      command with the idle-flow settings in the last three columns. */
  function CommandRows(standby: string, prepare: string): (r: seq<seq<string>>)
    ensures |r| == 2 && |r[0]| == |r[1]| == |ChronosColumns|
  {
    [[standby] + Blanks(11), [prepare] + Blanks(8) + ["none", "False", "Idle flow (250 nl/min)"]]
  }

  /** All runs, iRT runs first, the sample runs drawn in `shuffle` order. */
  function Runs(rows: seq<SampleRow>, shuffle: Option<seq<int>>, c: ChronosSettings): seq<EvosepRow>
    requires shuffle.Some? ==> IsPermutation(shuffle.value, |DropEmpty(rows)|)
  {
    var samples := SampleRuns(rows, c.slot, c.xcaliburMethod);
    var drawn := if shuffle.Some? then Permute(samples, shuffle.value) else samples;
    IrtRuns(c.irtCount, c.irtSlot, c.irtName, c.irtMethod) + drawn
  }

  /** The cells of the runs, one row each. */
  function RunRows(runs: seq<EvosepRow>, c: ChronosSettings): (r: seq<seq<string>>)
    ensures |r| == |runs| && forall i :: 0 <= i < |runs| ==> r[i] == RunCells(runs[i], c)
  {
    seq(|runs|, i requires 0 <= i < |runs| => RunCells(runs[i], c))
  }

  /** The table of the runs. The command rows are written into the first
      two rows of a blanked copy of the table, which fails when the table
      has fewer than two rows. */
  function Assemble(runs: seq<EvosepRow>, c: ChronosSettings): Result<seq<seq<string>>, Fault>
  {
    var table := RunRows(runs, c);
    match c.commands
    case None => Success(table)
    case Some((standby, prepare)) =>
      if |table| < 2 then Failure(IndexError) else Success(table + CommandRows(standby, prepare))
  }

  /** The Chronos table of the Evosep tab. */
  function ChronosTable(rows: seq<SampleRow>, shuffle: Option<seq<int>>, c: ChronosSettings): Result<seq<seq<string>>, Fault>
    requires shuffle.Some? ==> IsPermutation(shuffle.value, |DropEmpty(rows)|)
  {
    Assemble(Runs(rows, shuffle, c), c)
  }

  /** The Evosep tab step by step: the sample runs, the shuffle, the iRT
      runs in front, the added columns, then the command rows. */
  method BuildChronosTable(rows: seq<SampleRow>, shuffle: Option<seq<int>>, c: ChronosSettings)
      returns (r: Result<seq<seq<string>>, Fault>)
    requires shuffle.Some? ==> IsPermutation(shuffle.value, |DropEmpty(rows)|)
    ensures r == ChronosTable(rows, shuffle, c)
  {
    var runs := SampleRuns(rows, c.slot, c.xcaliburMethod);
    if shuffle.Some? {
      runs := Permute(runs, shuffle.value);
    }
    if c.irtCount != 0 {
      runs := IrtRuns(c.irtCount, c.irtSlot, c.irtName, c.irtMethod) + runs;
    }
    assert runs == Runs(rows, shuffle, c);
    var table := seq(|runs|, i requires 0 <= i < |runs| => RunCells(runs[i], c));
    assert table == RunRows(runs, c);
    if c.commands.Some? {
      var (standby, prepare) := c.commands.value;
      if |table| < 2 {
        return Failure(IndexError);
      }
      // the first two rows of the blanked copy, then the cells written into them
      var commands := [Blanks(12), Blanks(12)];
      commands := [commands[0][0 := standby], commands[1][0 := prepare]];
      commands := [commands[0], commands[1][9 := "none"][10 := "False"][11 := "Idle flow (250 nl/min)"]];
      ghost var expected := CommandRows(standby, prepare);
      assert forall k :: 0 <= k < 12 ==> commands[0][k] == expected[0][k];
      assert forall k :: 0 <= k < 12 ==> commands[1][k] == expected[1][k];
      assert commands[0] == expected[0] && commands[1] == expected[1];
      assert commands == expected;
      table := table + commands;
    }
    r := Success(table);
  }

  /** The runs are the iRT runs, then the sample runs in some order. */
  lemma RunsShape(rows: seq<SampleRow>, shuffle: Option<seq<int>>, c: ChronosSettings)
    requires shuffle.Some? ==> IsPermutation(shuffle.value, |DropEmpty(rows)|)
    ensures var runs := Runs(rows, shuffle, c);
            && |runs| == c.irtCount + |DropEmpty(rows)|
            && runs[..c.irtCount] == IrtRuns(c.irtCount, c.irtSlot, c.irtName, c.irtMethod)
            && multiset(runs[c.irtCount..]) == multiset(SampleRuns(rows, c.slot, c.xcaliburMethod))
  {
    var runs := Runs(rows, shuffle, c);
    var samples := SampleRuns(rows, c.slot, c.xcaliburMethod);
    var irt := IrtRuns(c.irtCount, c.irtSlot, c.irtName, c.irtMethod);
    assert runs[..c.irtCount] == irt;
    if shuffle.Some? {
      assert runs[c.irtCount..] == Permute(samples, shuffle.value);
      PermuteKeepsRows(samples, shuffle.value);
    } else {
      assert runs[c.irtCount..] == samples;
    }
  }

  /** The table fails exactly when the command rows are asked for and there
      are fewer than two runs. Otherwise it holds one row per run, then the
      two command rows when asked for, each of the twelve columns, and
      every run row repeats its sample name as the Xcalibur file name. */
  lemma AssembleShape(runs: seq<EvosepRow>, c: ChronosSettings)
    ensures var t := Assemble(runs, c);
            && (t.Failure? <==> c.commands.Some? && |runs| < 2)
            && (t.Success? ==> |t.value| == |runs| + (if c.commands.Some? then 2 else 0))
            && (t.Success? ==> forall i :: 0 <= i < |t.value| ==> |t.value[i]| == |ChronosColumns|)
            && (t.Success? ==> t.value[..|runs|] == RunRows(runs, c))
            && (t.Success? ==> forall i :: 0 <= i < |runs| ==>
                  t.value[i][2] == NatToDecimal(runs[i].sourceVial) && t.value[i][3] == runs[i].sampleName
                  && t.value[i][5] == runs[i].sampleName)
            && (t.Success? && c.commands.Some? ==>
                  t.value[|runs|..] == CommandRows(c.commands.value.0, c.commands.value.1))
  {
    var t := Assemble(runs, c);
    if t.Success? {
      var table := RunRows(runs, c);
      assert t.value[..|runs|] == table;
      forall i | 0 <= i < |runs|
        ensures t.value[i] == RunCells(runs[i], c)
      {
        assert t.value[i] == table[i];
      }
    }
  }

  /** A successful table starts with the rows of the runs. */
  lemma AssembleRows(runs: seq<EvosepRow>, c: ChronosSettings)
    ensures var t := Assemble(runs, c);
            t.Success? ==> |runs| <= |t.value| && t.value[..|runs|] == RunRows(runs, c)
  {
  }

  /** The Chronos table fails exactly when the command rows are asked for
      and there are fewer than two runs, iRT and sample runs together;
      otherwise it has a row per run plus the two command rows when asked
      for, and each row has the twelve columns. */
  lemma ChronosShape(rows: seq<SampleRow>, shuffle: Option<seq<int>>, c: ChronosSettings)
    requires shuffle.Some? ==> IsPermutation(shuffle.value, |DropEmpty(rows)|)
    ensures var t := ChronosTable(rows, shuffle, c);
            && (t.Failure? <==> c.commands.Some? && c.irtCount + |DropEmpty(rows)| < 2)
            && (t.Success? ==> |t.value| == c.irtCount + |DropEmpty(rows)| + (if c.commands.Some? then 2 else 0))
            && (t.Success? ==> forall i :: 0 <= i < |t.value| ==> |t.value[i]| == |ChronosColumns|)
  {
    RunsShape(rows, shuffle, c);
    AssembleShape(Runs(rows, shuffle, c), c);
  }

  /** The iRT runs come first: vial i + 1 of the iRT slot, named after the
      iRT sample with the vial appended, with the iRT method. */
  lemma ChronosIrtFirst(rows: seq<SampleRow>, shuffle: Option<seq<int>>, c: ChronosSettings)
    requires shuffle.Some? ==> IsPermutation(shuffle.value, |DropEmpty(rows)|)
    ensures var t := ChronosTable(rows, shuffle, c);
            t.Success? ==>
              forall i :: 0 <= i < c.irtCount ==>
                && t.value[i][1] == EvoSlot(c.irtSlot)
                && t.value[i][2] == NatToDecimal(i + 1)
                && t.value[i][3] == c.irtName + "_" + NatToDecimal(i + 1)
                && t.value[i][4] == c.irtMethod
  {
    var runs := Runs(rows, shuffle, c);
    var irt := IrtRuns(c.irtCount, c.irtSlot, c.irtName, c.irtMethod);
    assert runs[..c.irtCount] == irt;
    IrtRows(runs, irt, c);
  }

  /** Runs that start with the iRT runs give a table that starts with their
      rows. */
  lemma IrtRows(runs: seq<EvosepRow>, irt: seq<EvosepRow>, c: ChronosSettings)
    requires irt == IrtRuns(c.irtCount, c.irtSlot, c.irtName, c.irtMethod)
    requires |irt| <= |runs| && runs[..|irt|] == irt
    ensures var t := Assemble(runs, c);
            t.Success? ==>
              forall i :: 0 <= i < |irt| ==>
                && t.value[i][1] == EvoSlot(c.irtSlot)
                && t.value[i][2] == NatToDecimal(i + 1)
                && t.value[i][3] == c.irtName + "_" + NatToDecimal(i + 1)
                && t.value[i][4] == c.irtMethod
  {
    var t := Assemble(runs, c);
    if t.Success? {
      forall i | 0 <= i < |irt|
        ensures t.value[i][1] == EvoSlot(c.irtSlot) && t.value[i][2] == NatToDecimal(i + 1)
        ensures t.value[i][3] == c.irtName + "_" + NatToDecimal(i + 1) && t.value[i][4] == c.irtMethod
      {
        IrtRow(runs, irt, c, i);
      }
    }
  }

  /** Row i of the table of such runs holds the cells of the i-th iRT run. */
  lemma IrtRow(runs: seq<EvosepRow>, irt: seq<EvosepRow>, c: ChronosSettings, i: nat)
    requires irt == IrtRuns(c.irtCount, c.irtSlot, c.irtName, c.irtMethod)
    requires i < |irt| <= |runs| && runs[..|irt|] == irt
    ensures var t := Assemble(runs, c);
            t.Success? ==>
              && t.value[i][1] == EvoSlot(c.irtSlot)
              && t.value[i][2] == NatToDecimal(i + 1)
              && t.value[i][3] == c.irtName + "_" + NatToDecimal(i + 1)
              && t.value[i][4] == c.irtMethod
  {
    var t := Assemble(runs, c);
    var x := runs[i];
    assert x == runs[..|irt|][i] == irt[i];
    AssembleRow(runs, c, i);
    if t.Success? {
      var cells := RunCells(x, c);
      assert t.value[i] == cells;
      assert cells[1] == x.sourceTray && cells[2] == NatToDecimal(x.sourceVial);
      assert cells[3] == x.sampleName && cells[4] == x.xcaliburMethod;
    }
  }

  /** Row i of a successful table holds the cells of run i. */
  lemma AssembleRow(runs: seq<EvosepRow>, c: ChronosSettings, i: nat)
    requires i < |runs|
    ensures var t := Assemble(runs, c);
            t.Success? ==> t.value[i] == RunCells(runs[i], c)
  {
    var t := Assemble(runs, c);
    if t.Success? {
      AssembleRows(runs, c);
      assert t.value[i] == t.value[..|runs|][i];
    }
  }

  /** Shuffling draws every sample run once: the rows after the iRT runs are
      the rows of the drawn runs, and those are the rows of the sample runs
      in some order. */
  lemma ChronosKeepsSamples(rows: seq<SampleRow>, shuffle: Option<seq<int>>, c: ChronosSettings)
    requires shuffle.Some? ==> IsPermutation(shuffle.value, |DropEmpty(rows)|)
    ensures var t := ChronosTable(rows, shuffle, c);
            var runs := Runs(rows, shuffle, c);
            var samples := SampleRuns(rows, c.slot, c.xcaliburMethod);
            && |runs| == c.irtCount + |samples|
            && multiset(RunRows(runs, c)[c.irtCount..]) == multiset(RunRows(samples, c))
            && (t.Success? ==>
                  && |runs| <= |t.value|
                  && t.value[c.irtCount..|runs|] == RunRows(runs, c)[c.irtCount..])
  {
    var runs := Runs(rows, shuffle, c);
    DrawnRows(rows, shuffle, c);
    AssembleSlice(runs, c, c.irtCount);
  }

  /** The rows of the runs after the iRT runs are the rows of the sample
      runs, in some order. */
  lemma DrawnRows(rows: seq<SampleRow>, shuffle: Option<seq<int>>, c: ChronosSettings)
    requires shuffle.Some? ==> IsPermutation(shuffle.value, |DropEmpty(rows)|)
    ensures c.irtCount <= |Runs(rows, shuffle, c)|
    ensures multiset(RunRows(Runs(rows, shuffle, c), c)[c.irtCount..])
            == multiset(RunRows(SampleRuns(rows, c.slot, c.xcaliburMethod), c))
  {
    var runs := Runs(rows, shuffle, c);
    var samples := SampleRuns(rows, c.slot, c.xcaliburMethod);
    var n := c.irtCount;
    if shuffle.Some? {
      assert runs[n..] == Permute(samples, shuffle.value);
      PermutedRows(runs, n, samples, shuffle.value, c);
    } else {
      assert runs[n..] == samples;
      SameRows(runs, n, samples, c);
    }
  }

  /** The rows of a successful table from row n up to the last run are the
      rows of the runs from n on. */
  lemma AssembleSlice(runs: seq<EvosepRow>, c: ChronosSettings, n: nat)
    requires n <= |runs|
    ensures var t := Assemble(runs, c);
            t.Success? ==> |runs| <= |t.value| && t.value[n..|runs|] == RunRows(runs, c)[n..]
  {
    AssembleRows(runs, c);
  }

  lemma PermutedRows(runs: seq<EvosepRow>, n: nat, samples: seq<EvosepRow>, perm: seq<int>, c: ChronosSettings)
    requires IsPermutation(perm, |samples|) && n <= |runs| && runs[n..] == Permute(samples, perm)
    ensures multiset(RunRows(runs, c)[n..]) == multiset(RunRows(samples, c))
  {
    var cells := RunRows(samples, c);
    var part := RunRows(runs, c)[n..];
    forall i | 0 <= i < |samples|
      ensures part[i] == cells[perm[i]]
    {
      assert runs[n + i] == runs[n..][i];
    }
    assert part == Permute(cells, perm);
    PermuteKeepsRows(cells, perm);
  }

  lemma SameRows(runs: seq<EvosepRow>, n: nat, samples: seq<EvosepRow>, c: ChronosSettings)
    requires n <= |runs| && runs[n..] == samples
    ensures RunRows(runs, c)[n..] == RunRows(samples, c)
  {
    var part := RunRows(runs, c)[n..];
    forall i | 0 <= i < |samples|
      ensures part[i] == RunRows(samples, c)[i]
    {
      assert runs[n + i] == runs[n..][i];
    }
  }

  /** The column names of the Evosep XML export: one per Chronos column, with
      no space, slash or parenthesis left in any of them. */
  lemma EvosepXmlColumns()
    ensures var r := SanitizeXmlColumns(ChronosColumns);
            |r| == |ChronosColumns| && forall i :: 0 <= i < |r| ==> XmlSafe(r[i])
  {
    forall i | 0 <= i < |ChronosColumns|
      ensures XmlSafe(SanitizeName(ChronosColumns[i]))
    {
      SanitizeNameSafe(ChronosColumns[i]);
    }
  }
}
