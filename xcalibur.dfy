/** The injection tab of web.py: the long plate table annotated with vials,
    positions and file names, and the Xcalibur sequence built from it with
    washes and QC injections around and between the samples. */
module Xcalibur {
  import opened Wrappers
  import opened Text
  import opened Lists
  import opened PlateFrames
  import opened WebHelpers

  /** The sample label of a well left empty. */
  const EmptyWellLabel: string := "EMPTY"

  /** The letter of an autosampler injection position; an unknown colour
      gets no letter. */
  function InjectionLetter(colour: string): (r: string)
    ensures r == "" <==> colour != "Red" && colour != "Green" && colour != "Blue"
    ensures r != "" ==> r == [colour[0]]
  {
    if colour == "Red" then "R"
    else if colour == "Green" then "G"
    else if colour == "Blue" then "B"
    else ""
  }

  /** What the user enters on the injection tab; dates, volumes and paths
      are kept as the text they are written with. */
  datatype Settings = Settings(
    acqTech: string, date: string, projName: string, plateId: string,
    letter: string, injVol: string, instrumentMethod: string, path: string)

  /** A row of the annotated long table, one per sample well. */
  datatype SampleRow = SampleRow(
    row: char, column: string, sample: string, sourceVial: nat, position: string,
    injVol: string, instrumentMethod: string, path: string, fileName: string)

  /** The well name, row letter then column label. */
  function WellName(x: SampleRow): string
  {
    [x.row] + x.column
  }

  /** Every well gets its rank in the long table, counted from 1, as its vial;
      the columns added later are blank. */
  function Numbered(long: seq<LongEntry>): (r: seq<SampleRow>)
    ensures |r| == |long|
    ensures forall i :: 0 <= i < |r| ==>
              r[i] == SampleRow(long[i].row, long[i].column, long[i].sample, i + 1, "", "", "", "", "")
  {
    seq(|long|, i requires 0 <= i < |long| =>
      SampleRow(long[i].row, long[i].column, long[i].sample, i + 1, "", "", "", "", ""))
  }

  /** The vials number the wells 1 .. |long| in plate order, each exactly
      once, and every row keeps its well and sample. */
  lemma NumberedVials(long: seq<LongEntry>)
    ensures var r := Numbered(long);
            && (forall i, j :: 0 <= i < j < |r| ==> r[i].sourceVial < r[j].sourceVial)
            && (forall i :: 0 <= i < |r| ==> 1 <= r[i].sourceVial <= |long|)
            && (forall v :: 1 <= v <= |long| ==> HasVial(r, v))
            && (forall i :: 0 <= i < |r| ==> WellName(r[i]) == [long[i].row] + long[i].column && r[i].sample == long[i].sample)
  {
    var r := Numbered(long);
    forall v | 1 <= v <= |long|
      ensures HasVial(r, v)
    {
      assert r[v - 1].sourceVial == v;
    }
  }

  /** Some row of the table sits in vial `v`. */
  predicate HasVial(rows: seq<SampleRow>, v: nat)
  {
    exists i :: 0 <= i < |rows| && rows[i].sourceVial == v
  }

  /** The rows whose sample is not the empty-well label, in their order. */
  function DropEmpty(rows: seq<SampleRow>): (r: seq<SampleRow>)
    ensures |r| <= |rows|
  {
    if |rows| == 0 then []
    else
      var last := rows[|rows| - 1];
      DropEmpty(rows[..|rows| - 1]) + (if last.sample != EmptyWellLabel then [last] else [])
  }

  /** A row is kept exactly when it is in the table and is not an empty
      well. */
  lemma {:induction false} DropEmptyMembers(rows: seq<SampleRow>)
    ensures forall x :: x in DropEmpty(rows) <==> x in rows && x.sample != EmptyWellLabel
  {
    if |rows| > 0 {
      var front, last := rows[..|rows| - 1], rows[|rows| - 1];
      DropEmptyMembers(front);
      assert rows == front + [last];
      assert DropEmpty(rows) == DropEmpty(front) + (if last.sample != EmptyWellLabel then [last] else []);
    }
  }

  /** The rows are ordered by strictly increasing vial. */
  predicate VialsIncrease(rows: seq<SampleRow>)
  {
    forall i, j :: 0 <= i < j < |rows| ==> rows[i].sourceVial < rows[j].sourceVial
  }

  /** Keeping the non-empty rows keeps their order by vial. */
  lemma {:induction false} DropEmptyKeepsOrder(rows: seq<SampleRow>)
    requires VialsIncrease(rows)
    ensures VialsIncrease(DropEmpty(rows))
  {
    if |rows| > 0 {
      var init := rows[..|rows| - 1];
      var last := rows[|rows| - 1];
      DropEmptyKeepsOrder(init);
      var r := DropEmpty(rows);
      var d := DropEmpty(init);
      DropEmptyMembers(init);
      forall i | 0 <= i < |d|
        ensures d[i].sourceVial < last.sourceVial
      {
        assert d[i] in init;
      }
      if last.sample != EmptyWellLabel {
        assert r == d + [last];
        forall i, j | 0 <= i < j < |r|
          ensures r[i].sourceVial < r[j].sourceVial
        {
          if j == |d| {
            assert r[i] == d[i];
          } else {
            assert r[i] == d[i] && r[j] == d[j];
            assert d[i].sourceVial < d[j].sourceVial;
          }
        }
      } else {
        assert r == d;
        forall i, j | 0 <= i < j < |r|
          ensures r[i].sourceVial < r[j].sourceVial
        {
          assert d[i].sourceVial < d[j].sourceVial;
        }
      }
    }
  }

  /** Dropping empty wells from rows that hold none changes nothing. */
  lemma {:induction false} DropEmptyNoEmpty(rows: seq<SampleRow>)
    requires forall i :: 0 <= i < |rows| ==> rows[i].sample != EmptyWellLabel
    ensures DropEmpty(rows) == rows
  {
    if |rows| > 0 {
      var front, last := rows[..|rows| - 1], rows[|rows| - 1];
      assert forall i :: 0 <= i < |front| ==> front[i] == rows[i];
      DropEmptyNoEmpty(front);
      assert last.sample != EmptyWellLabel;
      calc {
        DropEmpty(rows);
        DropEmpty(front) + (if last.sample != EmptyWellLabel then [last] else []);
        front + [last];
        rows;
      }
    }
  }

  /** The finished row: the file name is built from the well name before the
      injection letter is put in front of the position. */
  function Finished(x: SampleRow, s: Settings): SampleRow
  {
    x.(position := s.letter + WellName(x), injVol := s.injVol,
       instrumentMethod := s.instrumentMethod, path := s.path,
       fileName := BuildFileName(s.acqTech, s.date, s.projName, s.plateId, WellName(x)))
  }

  /** The annotated table the injection tab builds from the long plate
      table. */
  function Annotated(long: seq<LongEntry>, s: Settings): seq<SampleRow>
  {
    var kept := DropEmpty(Numbered(long));
    seq(|kept|, i requires 0 <= i < |kept| => Finished(kept[i], s))
  }

  /** The injection tab's table, or the exception it raises when no well
      survives the empty-well filter: `apply` on a frame without rows probes
      the file-name builder with a row of missing values, which cannot be
      joined, and so returns a copy of the frame instead of a column; storing
      that frame into the single column "File Name" raises. */
  function Annotate(long: seq<LongEntry>, s: Settings): Result<seq<SampleRow>, Fault>
  {
    var a := Annotated(long, s);
    if |a| == 0 then Failure(FrameIntoColumn) else Success(a)
  }

  /** The column assignments of the injection tab, one after the other:
      vials, the empty-well filter, the well position, the constant
      columns, the file name, then the injection letter. */
  method AnnotatePlate(long: seq<LongEntry>, s: Settings) returns (r: Result<seq<SampleRow>, Fault>)
    ensures r == Annotate(long, s)
  {
    var rows := Numbered(long);
    rows := DropEmpty(rows);
    var n := |rows|;
    ghost var kept := rows;
    rows := seq(n, i requires 0 <= i < n => rows[i].(position := WellName(rows[i])));
    rows := seq(n, i requires 0 <= i < n =>
      rows[i].(injVol := s.injVol, instrumentMethod := s.instrumentMethod, path := s.path));
    if n == 0 {
      assert |Annotated(long, s)| == |kept| == 0;
      return Failure(FrameIntoColumn);
    }
    rows := seq(n, i requires 0 <= i < n =>
      rows[i].(fileName := BuildFileName(s.acqTech, s.date, s.projName, s.plateId, rows[i].position)));
    rows := seq(n, i requires 0 <= i < n => rows[i].(position := s.letter + rows[i].position));
    assert forall i :: 0 <= i < n ==> rows[i] == Finished(kept[i], s);
    assert rows == Annotated(long, s);
    return Success(rows);
  }

  /** The injection tab raises exactly when every well of the plate holds
      the empty-well label, a plate without wells included. */
  lemma AnnotateFailsIffAllEmpty(long: seq<LongEntry>, s: Settings)
    ensures Annotate(long, s).Failure? <==> forall i :: 0 <= i < |long| ==> long[i].sample == EmptyWellLabel
  {
    var a := Annotated(long, s);
    if |a| == 0 {
      forall i | 0 <= i < |long|
        ensures long[i].sample == EmptyWellLabel
      {
        if long[i].sample != EmptyWellLabel {
          AnnotatedCoversSamples(long, s, i);
        }
      }
    } else {
      AnnotatedRow(long, s, 0);
      assert long[a[0].sourceVial - 1].sample != EmptyWellLabel;
    }
  }

  /** Every annotated row is a non-empty well of the long table: its vial is
      that well's rank, and its position and file name name that well. */
  lemma AnnotatedRowsAreSamples(long: seq<LongEntry>, s: Settings)
    ensures forall x :: x in Annotated(long, s) ==>
              && 1 <= x.sourceVial <= |long|
              && long[x.sourceVial - 1] == LongEntry(x.row, x.column, x.sample)
              && x.sample != EmptyWellLabel
              && x.position == s.letter + WellName(x)
              && x.fileName == BuildFileName(s.acqTech, s.date, s.projName, s.plateId, WellName(x))
              && x.injVol == s.injVol && x.instrumentMethod == s.instrumentMethod && x.path == s.path
  {
    var a := Annotated(long, s);
    forall x | x in a
      ensures 1 <= x.sourceVial <= |long| && long[x.sourceVial - 1] == LongEntry(x.row, x.column, x.sample)
      ensures x.sample != EmptyWellLabel
      ensures x.position == s.letter + WellName(x)
      ensures x.fileName == BuildFileName(s.acqTech, s.date, s.projName, s.plateId, WellName(x))
      ensures x.injVol == s.injVol && x.instrumentMethod == s.instrumentMethod && x.path == s.path
    {
      var i :| 0 <= i < |a| && a[i] == x;
      AnnotatedRow(long, s, i);
    }
  }

  /** Row i of the annotated table: a kept well of the long table, finished. */
  lemma AnnotatedRow(long: seq<LongEntry>, s: Settings, i: nat)
    requires i < |Annotated(long, s)|
    ensures var x := Annotated(long, s)[i];
            && 1 <= x.sourceVial <= |long| && long[x.sourceVial - 1] == LongEntry(x.row, x.column, x.sample)
            && x.sample != EmptyWellLabel
            && x.position == s.letter + WellName(x)
            && x.fileName == BuildFileName(s.acqTech, s.date, s.projName, s.plateId, WellName(x))
            && x.injVol == s.injVol && x.instrumentMethod == s.instrumentMethod && x.path == s.path
  {
    var numbered := Numbered(long);
    var kept := DropEmpty(numbered);
    var y := kept[i];
    assert y in kept;
    DropEmptyMembers(numbered);
    var j :| 0 <= j < |numbered| && numbered[j] == y;
    assert Annotated(long, s)[i] == Finished(y, s);
    assert WellName(Finished(y, s)) == WellName(y);
  }

  /** Every well of the long table whose sample is not the empty-well label
      has an annotated row, with its rank as the vial. */
  lemma AnnotatedCoversSamples(long: seq<LongEntry>, s: Settings, i: nat)
    requires i < |long| && long[i].sample != EmptyWellLabel
    ensures exists x :: x in Annotated(long, s) && x.sourceVial == i + 1
  {
    var numbered := Numbered(long);
    var kept := DropEmpty(numbered);
    DropEmptyMembers(numbered);
    assert numbered[i] in kept;
    var j :| 0 <= j < |kept| && kept[j] == numbered[i];
    assert Annotated(long, s)[j].sourceVial == i + 1;
  }

  /** The annotated rows keep the plate's order: their vials increase. */
  lemma AnnotatedVialsIncrease(long: seq<LongEntry>, s: Settings)
    ensures VialsIncrease(Annotated(long, s))
  {
    var numbered := Numbered(long);
    DropEmptyKeepsOrder(numbered);
    var kept := DropEmpty(numbered);
    var a := Annotated(long, s);
    forall i, j | 0 <= i < j < |a|
      ensures a[i].sourceVial < a[j].sourceVial
    {
      assert a[i].sourceVial == kept[i].sourceVial;
      assert a[j].sourceVial == kept[j].sourceVial;
      assert kept[i].sourceVial < kept[j].sourceVial;
    }
  }

  /** A row of the Xcalibur sequence. */
  datatype SequenceRow = SequenceRow(
    fileName: string, path: string, instrumentMethod: string, position: string, injVol: string)

  /** The sample order, `output_order_df`: the columns of the annotated
      table that go into the sequence. */
  function SampleOrder(rows: seq<SampleRow>): (r: seq<SequenceRow>)
    ensures |r| == |rows|
    ensures forall i :: 0 <= i < |r| ==>
              r[i] == SequenceRow(rows[i].fileName, rows[i].path, rows[i].instrumentMethod, rows[i].position, rows[i].injVol)
  {
    seq(|rows|, i requires 0 <= i < |rows| =>
      SequenceRow(rows[i].fileName, rows[i].path, rows[i].instrumentMethod, rows[i].position, rows[i].injVol))
  }

  /** Path, method, position and volume of a wash or QC injection. */
  datatype Injection = Injection(path: string, methodFile: string, position: string, injVol: string)

  function Row(fileName: string, inj: Injection): SequenceRow
  {
    SequenceRow(fileName, inj.path, inj.methodFile, inj.position, inj.injVol)
  }

  function WithSuffix(r: SequenceRow, suffix: string): SequenceRow
  {
    r.(fileName := r.fileName + suffix)
  }

  /** Whether the technique injects the samples without washes in between. */
  predicate IsTargeted(acqTech: string)
  {
    acqTech == "SRM" || acqTech == "PRM"
  }

  /** The order the samples are injected in: shuffled when a drawing order
      is given. */
  function Drawn(order: seq<SequenceRow>, shuffle: Option<seq<int>>): seq<SequenceRow>
    requires shuffle.Some? ==> IsPermutation(shuffle.value, |order|)
  {
    if shuffle.Some? then Permute(order, shuffle.value) else order
  }

  /** The Xcalibur sequence: a wash, the QC block (QC then wash), the
      samples with a wash after every eight (no washes for SRM and PRM), the
      QC block again; when QC between samples is asked for, a wash and the
      dated QC suffixed "_1" before, the dated QC and a wash suffixed "_2"
      after. The wash insertion runs for every technique and raises on an
      empty sample order. */
  function XcaliburSequence(samples: seq<SequenceRow>, acqTech: string, date: string,
                            wash: Injection, qc: Injection, qcBetween: Injection,
                            includeQcBetween: bool): Result<seq<SequenceRow>, Fault>
  {
    var washRow := Row("wash", wash);
    var qcBlock := [Row("QC_Plasma", qc), washRow];
    var dated := Row("QC_" + date, qcBetween);
    match InsertWashAfterChunks(samples, [washRow], 8)
    case Failure(e) => Failure(e)
    case Success(washed) =>
      var body := if IsTargeted(acqTech) then samples else washed;
      var core := [washRow] + qcBlock + body + qcBlock;
      if includeQcBetween then
        Success([WithSuffix(washRow, "_1"), WithSuffix(dated, "_1")] + core
                + [WithSuffix(dated, "_2"), WithSuffix(washRow, "_2")])
      else Success(core)
  }

  /** The assembly step by step, as the injection tab does it. */
  method AssembleSequence(order: seq<SequenceRow>, shuffle: Option<seq<int>>, acqTech: string,
                          date: string, wash: Injection, qc: Injection, qcBetween: Injection,
                          includeQcBetween: bool) returns (r: Result<seq<SequenceRow>, Fault>)
    requires shuffle.Some? ==> IsPermutation(shuffle.value, |order|)
    ensures r == XcaliburSequence(Drawn(order, shuffle), acqTech, date, wash, qc, qcBetween, includeQcBetween)
  {
    var washRow := Row("wash", wash);
    var qcRows := [Row("QC_Plasma", qc)];
    qcRows := qcRows + [washRow];
    var dated := Row("QC_" + date, qcBetween);
    var pre := [washRow, dated];
    pre := [WithSuffix(pre[0], "_1"), WithSuffix(pre[1], "_1")];
    var post := [dated, washRow];
    post := [WithSuffix(post[0], "_2"), WithSuffix(post[1], "_2")];
    var drawn := order;
    if shuffle.Some? {
      drawn := Permute(order, shuffle.value);
    }
    var withWash := InsertWashAfterChunks(drawn, [washRow], 8);
    if withWash.Failure? {
      return Failure(withWash.error);
    }
    var output := withWash.value;
    if IsTargeted(acqTech) {
      output := drawn;
    }
    output := [washRow] + qcRows + output + qcRows;
    if includeQcBetween {
      output := pre + output + post;
    }
    r := Success(output);
    assert drawn == Drawn(order, shuffle);
    assert qcRows == [Row("QC_Plasma", qc), washRow];
    assert pre == [WithSuffix(washRow, "_1"), WithSuffix(dated, "_1")];
    assert post == [WithSuffix(dated, "_2"), WithSuffix(washRow, "_2")];
  }

  /** The sequence fails exactly when there is no sample to inject; else it
      holds the samples, one wash per started block of eight for the
      untargeted techniques, five service rows, and four more with QC
      between samples. */
  lemma XcaliburLength(samples: seq<SequenceRow>, acqTech: string, date: string,
                       wash: Injection, qc: Injection, qcBetween: Injection, includeQcBetween: bool)
    ensures var r := XcaliburSequence(samples, acqTech, date, wash, qc, qcBetween, includeQcBetween);
            && (r.Failure? <==> |samples| == 0)
            && (r.Success? ==> |r.value| == |samples| + (if IsTargeted(acqTech) then 0 else NumChunks(|samples|, 8))
                                              + 5 + (if includeQcBetween then 4 else 0))
  {
    InsertWashLength(samples, [Row("wash", wash)], 8);
  }

  /** `r` is `s` with the row `w` after every eight rows: row i of `s` sits
      at i + i / 8, every ninth row is `w`, and so is the last. */
  predicate WashedEveryEight(s: seq<SequenceRow>, w: SequenceRow, r: seq<SequenceRow>)
  {
    && |r| > 0 && r[|r| - 1] == w
    && (forall i :: 0 <= i < |s| ==> i + i / 8 < |r| && r[i + i / 8] == s[i])
    && (forall k :: 0 <= k < |r| && k % 9 == 8 ==> r[k] == w)
  }

  lemma WashedEveryEightStep(s: seq<SequenceRow>, w: SequenceRow, r: seq<SequenceRow>, rest: seq<SequenceRow>)
    requires |s| > 8 && WashedEveryEight(s[8..], w, rest) && r == s[..8] + [w] + rest
    ensures WashedEveryEight(s, w, r)
  {
    forall i | 0 <= i < |s|
      ensures i + i / 8 < |r| && r[i + i / 8] == s[i]
    {
      if i >= 8 {
        assert i + i / 8 == (i - 8) + (i - 8) / 8 + 9;
        assert s[i] == s[8..][i - 8];
      }
    }
    forall k | 0 <= k < |r| && k % 9 == 8
      ensures r[k] == w
    {
      if k > 8 {
        assert r[k] == rest[k - 9];
      }
    }
  }

  lemma WashedEveryEightShort(s: seq<SequenceRow>, w: SequenceRow)
    requires 0 < |s| <= 8
    ensures WashedEveryEight(s, w, s + [w])
  {
    var r := s + [w];
    forall i | 0 <= i < |s|
      ensures i + i / 8 < |r| && r[i + i / 8] == s[i]
    {
      assert i / 8 == 0;
    }
    forall k | 0 <= k < |r| && k % 9 == 8
      ensures r[k] == w
    {
      assert k == 8 == |s|;
    }
  }

  /** The wash insertion with a one-row wash block and chunks of eight. */
  lemma {:induction false} WashEveryEight(s: seq<SequenceRow>, w: SequenceRow)
    requires |s| > 0
    ensures InsertWashAfterChunks(s, [w], 8).Success?
    ensures WashedEveryEight(s, w, InsertWashAfterChunks(s, [w], 8).value)
    decreases |s|
  {
    InsertWashUnfold(s, [w], 8);
    if |s| > 8 {
      WashEveryEight(s[8..], w);
      WashedEveryEightStep(s, w, InsertWashAfterChunks(s, [w], 8).value,
                           InsertWashAfterChunks(s[8..], [w], 8).value);
    } else {
      WashedEveryEightShort(s, w);
    }
  }

  /** Where the samples sit in the finished sequence: after the leading
      service rows (three, or five with QC between samples), sample i is
      at i + i / 8 for the untargeted techniques and at i for SRM and
      PRM; the last rows are the QC block, followed by the dated QC and a
      wash when QC between samples is asked for. */
  lemma XcaliburLayout(samples: seq<SequenceRow>, acqTech: string, date: string,
                       wash: Injection, qc: Injection, qcBetween: Injection, includeQcBetween: bool)
    requires |samples| > 0
    ensures var r := XcaliburSequence(samples, acqTech, date, wash, qc, qcBetween, includeQcBetween);
            var lead := if includeQcBetween then 5 else 3;
            var tail := if includeQcBetween then 4 else 2;
            && r.Success?
            && |r.value| >= lead + |samples| + tail
            && r.value[0] == (if includeQcBetween then WithSuffix(Row("wash", wash), "_1") else Row("wash", wash))
            && r.value[lead - 2] == Row("QC_Plasma", qc)
            && r.value[lead - 1] == Row("wash", wash)
            && (forall i :: 0 <= i < |samples| ==>
                  lead + SampleSlot(IsTargeted(acqTech), i) < |r.value|
                  && r.value[lead + SampleSlot(IsTargeted(acqTech), i)] == samples[i])
            && r.value[|r.value| - tail] == Row("QC_Plasma", qc)
            && r.value[|r.value| - tail + 1] == Row("wash", wash)
            && (includeQcBetween ==> r.value[|r.value| - 1] == WithSuffix(Row("wash", wash), "_2"))
  {
    var pre, body, core, post := XcaliburParts(samples, acqTech, date, wash, qc, qcBetween, includeQcBetween);
    CoreLayout(samples, IsTargeted(acqTech), body, Row("wash", wash), Row("QC_Plasma", qc), core);
    var r := XcaliburSequence(samples, acqTech, date, wash, qc, qcBetween, includeQcBetween);
    PartsLayout(r.value, samples, IsTargeted(acqTech), includeQcBetween, Row("wash", wash), Row("QC_Plasma", qc),
                pre, core, post);
  }

  /** Where the rows sit in a sequence made of the three parts. */
  lemma PartsLayout(rows: seq<SequenceRow>, samples: seq<SequenceRow>, targeted: bool, includeQcBetween: bool,
                    washRow: SequenceRow, qcRow: SequenceRow,
                    pre: seq<SequenceRow>, core: seq<SequenceRow>, post: seq<SequenceRow>)
    requires rows == pre + core + post
    requires |pre| == |post| == (if includeQcBetween then 2 else 0)
    requires includeQcBetween ==> pre[0] == WithSuffix(washRow, "_1") && post[1] == WithSuffix(washRow, "_2")
    requires |core| >= 5 + |samples|
    requires core[0] == washRow && core[1] == qcRow && core[2] == washRow
    requires core[|core| - 2] == qcRow && core[|core| - 1] == washRow
    requires forall i :: 0 <= i < |samples| ==>
               3 + SampleSlot(targeted, i) < |core| && core[3 + SampleSlot(targeted, i)] == samples[i]
    ensures var lead := if includeQcBetween then 5 else 3;
            var tail := if includeQcBetween then 4 else 2;
            && |rows| >= lead + |samples| + tail
            && rows[0] == (if includeQcBetween then WithSuffix(washRow, "_1") else washRow)
            && rows[lead - 2] == qcRow
            && rows[lead - 1] == washRow
            && (forall i :: 0 <= i < |samples| ==>
                  lead + SampleSlot(targeted, i) < |rows| && rows[lead + SampleSlot(targeted, i)] == samples[i])
            && rows[|rows| - tail] == qcRow
            && rows[|rows| - tail + 1] == washRow
            && (includeQcBetween ==> rows[|rows| - 1] == WithSuffix(washRow, "_2"))
  {
    Shifted(samples, targeted, pre, core, post);
    if includeQcBetween {
      assert rows[0] == pre[0] && rows[3] == core[1] && rows[4] == core[2];
      assert rows[|rows| - 4] == core[|core| - 2];
      assert rows[|rows| - 3] == core[|core| - 1];
      assert rows[|rows| - 1] == post[1];
      forall i | 0 <= i < |samples|
        ensures 5 + SampleSlot(targeted, i) < |rows| && rows[5 + SampleSlot(targeted, i)] == samples[i]
      {
        assert 5 + SampleSlot(targeted, i) == |pre| + 3 + SampleSlot(targeted, i);
      }
    } else {
      assert rows == core;
    }
  }

  /** The finished sequence in three parts: the dated QC and a wash in
      front and behind when QC between samples is asked for, and around
      the body a wash with the QC block in front and the QC block behind. */
  lemma XcaliburParts(samples: seq<SequenceRow>, acqTech: string, date: string,
                      wash: Injection, qc: Injection, qcBetween: Injection, includeQcBetween: bool)
      returns (pre: seq<SequenceRow>, body: seq<SequenceRow>, core: seq<SequenceRow>, post: seq<SequenceRow>)
    requires |samples| > 0
    ensures var r := XcaliburSequence(samples, acqTech, date, wash, qc, qcBetween, includeQcBetween);
            r.Success? && r.value == pre + core + post
    ensures |pre| == |post| == (if includeQcBetween then 2 else 0)
    ensures includeQcBetween ==>
              pre[0] == WithSuffix(Row("wash", wash), "_1") && post[1] == WithSuffix(Row("wash", wash), "_2")
    ensures core == [Row("wash", wash)] + [Row("QC_Plasma", qc), Row("wash", wash)] + body
                    + [Row("QC_Plasma", qc), Row("wash", wash)]
    ensures |samples| <= |body|
    ensures forall i :: 0 <= i < |samples| ==>
              SampleSlot(IsTargeted(acqTech), i) < |body| && body[SampleSlot(IsTargeted(acqTech), i)] == samples[i]
  {
    var washRow := Row("wash", wash);
    var qcRow := Row("QC_Plasma", qc);
    body := SequenceBody(samples, acqTech, washRow);
    core := [washRow] + [qcRow, washRow] + body + [qcRow, washRow];
    if includeQcBetween {
      var dated := Row("QC_" + date, qcBetween);
      pre := [WithSuffix(washRow, "_1"), WithSuffix(dated, "_1")];
      post := [WithSuffix(dated, "_2"), WithSuffix(washRow, "_2")];
    } else {
      pre, post := [], [];
      assert core == pre + core + post;
    }
  }

  /** Rows put in front of the core move every sample by as many places. */
  lemma Shifted(samples: seq<SequenceRow>, targeted: bool,
                pre: seq<SequenceRow>, core: seq<SequenceRow>, post: seq<SequenceRow>)
    requires forall i :: 0 <= i < |samples| ==>
               3 + SampleSlot(targeted, i) < |core| && core[3 + SampleSlot(targeted, i)] == samples[i]
    ensures forall i :: 0 <= i < |samples| ==>
              |pre| + 3 + SampleSlot(targeted, i) < |pre + core + post|
              && (pre + core + post)[|pre| + 3 + SampleSlot(targeted, i)] == samples[i]
  {
    forall i | 0 <= i < |samples|
      ensures (pre + core + post)[|pre| + 3 + SampleSlot(targeted, i)] == samples[i]
    {
      var k := 3 + SampleSlot(targeted, i);
      assert (pre + core + post)[|pre| + k] == core[k];
    }
  }

  /** Where sample i sits in the body: at i for the targeted techniques,
      after its i / 8 washes for the others. */
  function SampleSlot(targeted: bool, i: nat): (k: nat)
    ensures i <= k
  {
    if targeted then i else i + i / 8
  }

  /** The body of the sequence: the samples as they are for the targeted
      techniques, with the washes in for the others; it holds each sample
      at its slot. */
  lemma SequenceBody(samples: seq<SequenceRow>, acqTech: string, washRow: SequenceRow)
      returns (body: seq<SequenceRow>)
    requires |samples| > 0
    ensures InsertWashAfterChunks(samples, [washRow], 8).Success?
    ensures body == if IsTargeted(acqTech) then samples else InsertWashAfterChunks(samples, [washRow], 8).value
    ensures |samples| <= |body|
    ensures forall i :: 0 <= i < |samples| ==>
              SampleSlot(IsTargeted(acqTech), i) < |body| && body[SampleSlot(IsTargeted(acqTech), i)] == samples[i]
  {
    WashEveryEight(samples, washRow);
    body := if IsTargeted(acqTech) then samples else InsertWashAfterChunks(samples, [washRow], 8).value;
    BodyHoldsSamples(samples, IsTargeted(acqTech), body, washRow);
  }

  /** The body holds the samples: as they are, or with the washes in. */
  lemma BodyHoldsSamples(samples: seq<SequenceRow>, targeted: bool, body: seq<SequenceRow>, washRow: SequenceRow)
    requires |samples| > 0
    requires targeted ==> body == samples
    requires !targeted ==> WashedEveryEight(samples, washRow, body)
    ensures |samples| <= |body|
    ensures forall i :: 0 <= i < |samples| ==>
              SampleSlot(targeted, i) < |body| && body[SampleSlot(targeted, i)] == samples[i]
  {
    var last := |samples| - 1;
    assert samples[last] == samples[last];
  }

  /** The sequence without the dated QC rows: a wash and the QC block, the
      body, and the QC block again. */
  lemma CoreLayout(samples: seq<SequenceRow>, targeted: bool, body: seq<SequenceRow>,
                   washRow: SequenceRow, qcRow: SequenceRow, core: seq<SequenceRow>)
    requires |samples| <= |body|
    requires forall i :: 0 <= i < |samples| ==>
               SampleSlot(targeted, i) < |body| && body[SampleSlot(targeted, i)] == samples[i]
    requires core == [washRow] + [qcRow, washRow] + body + [qcRow, washRow]
    ensures |core| >= 5 + |samples|
    ensures core[0] == washRow && core[1] == qcRow && core[2] == washRow
    ensures core[|core| - 2] == qcRow && core[|core| - 1] == washRow
    ensures forall i :: 0 <= i < |samples| ==>
              3 + SampleSlot(targeted, i) < |core| && core[3 + SampleSlot(targeted, i)] == samples[i]
  {
    var lead := [washRow] + [qcRow, washRow];
    forall i | 0 <= i < |samples|
      ensures 3 + SampleSlot(targeted, i) < |core| && core[3 + SampleSlot(targeted, i)] == samples[i]
    {
      var j := SampleSlot(targeted, i);
      assert body[j] == samples[i];
      assert core[|lead| + j] == body[j];
    }
  }

  /** Shuffling the sample order keeps every sample injection. */
  lemma DrawnKeepsSamples(order: seq<SequenceRow>, shuffle: Option<seq<int>>)
    requires shuffle.Some? ==> IsPermutation(shuffle.value, |order|)
    ensures multiset(Drawn(order, shuffle)) == multiset(order)
  {
    if shuffle.Some? {
      PermuteKeepsRows(order, shuffle.value);
    }
  }

  /** The CSV text handed out: the bracket header line, then the table,
      with a byte-order mark in front. */
  function ExportText(csv: string): (r: string)
    ensures |r| > 0 && r[0] == Bom
    ensures r[1..] == "Bracket Type=4,,,,\n" + csv
  {
    EnsureBom("Bracket Type=4,,,,\n" + csv)
  }
}
