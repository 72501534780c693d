/** `process_plate_positions` (func/plate_plot.py): the annotation text is
    cleaned, checked, expanded with Row/Col entries put at the FRONT of the
    list, and written into the default-filled plate. */
module PlatePlot {
  import opened Wrappers
  import opened Text
  import opened Lists
  import opened PlateFrames
  import opened PlateAnnotations

  /** The lines that are not blank, in input order. */
  function NonBlank(lines: seq<string>): (r: seq<string>)
    ensures forall x :: x in r <==> x in lines && Strip(x) != ""
    ensures |r| <= |lines|
  {
    if |lines| == 0 then []
    else
      var n := |lines| - 1;
      assert lines == lines[..n] + [lines[n]];
      NonBlank(lines[..n]) + (if Strip(lines[n]) != "" then [lines[n]] else [])
  }

  /** The lines the function works on: the input split at '\n', blank lines dropped. */
  function Lines(textInput: string): seq<string>
  {
    NonBlank(Split(textInput, '\n'))
  }

  /** The symbols whose presence makes a line suspicious. */
  const Symbols: string := "?!@#$%^&*()+={}[]|\\:\"'<>,./~`"

  /** A line the format check objects to: not exactly one ';', or a listed symbol. */
  predicate BadFormat(item: string)
  {
    ';' !in item || Count(item, ';') != 1 || exists c :: c in Symbols && c in item
  }

  /** The format check's warning: one for the first line it objects to, and
      none when it objects to none. */
  function FormatWarning(lines: seq<string>): (w: seq<Warning>)
    ensures forall x :: x in w ==> x.InvalidFormat?
    ensures w == [] <==> forall i :: 0 <= i < |lines| ==> !BadFormat(lines[i])
    ensures w != [] ==> exists i :: 0 <= i < |lines| && BadFormat(lines[i]) && w == [InvalidFormat(lines[i])]
                                    && forall j :: 0 <= j < i ==> !BadFormat(lines[j])
  {
    if |lines| == 0 then []
    else if BadFormat(lines[0]) then [InvalidFormat(lines[0])]
    else
      var w := FormatWarning(lines[1..]);
      assert forall i :: 1 <= i < |lines| ==> lines[1..][i - 1] == lines[i];
      w
  }

  /** The loop that warns on the first badly formatted line and breaks; the
      line itself stays in the list. */
  method CheckFormat(lines: seq<string>) returns (w: seq<Warning>)
    ensures w == FormatWarning(lines)
  {
    w := [];
    var i := 0;
    while i < |lines|
      invariant 0 <= i <= |lines|
      invariant FormatWarning(lines) == FormatWarning(lines[i..])
    {
      var item := lines[i];
      assert lines[i..][0] == item && lines[i..][1..] == lines[i + 1..];
      if BadFormat(item) {
        w := [InvalidFormat(item)];
        break;
      }
      i := i + 1;
    }
  }

  /** A `RowX` line: the twelve entries of row X, each put at the front of
      the list in turn. */
  method PrependRow(replacePos: seq<string>, text: string, letter: char) returns (r: seq<string>)
    ensures r == Reverse(RowEntries(text, letter)) + replacePos
  {
    ghost var es := RowEntries(text, letter);
    r := replacePos;
    var number := 1;
    while number < 13
      invariant 1 <= number <= 13
      invariant r == Reverse(es[..number - 1]) + replacePos
    {
      assert es[..number][..number - 1] == es[..number - 1];
      r := [text + ";" + [letter] + NatToDecimal(number)] + r;
      number := number + 1;
    }
    assert es[..12] == es;
  }

  /** A `ColN` line: the eight entries of column N, each put at the front of
      the list in turn. */
  method PrependColumn(replacePos: seq<string>, text: string, digits: string) returns (r: seq<string>)
    ensures r == Reverse(ColEntries(text, digits)) + replacePos
  {
    ghost var es := ColEntries(text, digits);
    r := replacePos;
    var i := 0;
    while i < 8
      invariant 0 <= i <= 8
      invariant r == Reverse(es[..i]) + replacePos
    {
      assert es[..i + 1][..i] == es[..i];
      r := [text + ";" + [RowLabels[i]] + digits] + r;
      i := i + 1;
    }
    assert es[..8] == es;
  }

  /** The body of the loop over the Row/Col lines for one line: its entries
      inserted at the front, or a warning, or the unpacking exception. */
  method PrependDirective(replacePos: seq<string>, item: string)
    returns (r: seq<string>, warning: Option<Warning>, error: Option<Error>)
    ensures match ExpandDirective(item)
            case Wells(es) => r == Reverse(es) + replacePos && warning.None? && error.None?
            case Rejected(w) => r == replacePos && warning == Some(w) && error.None?
            case Raised(e) => error == Some(e)
  {
    r, warning, error := replacePos, None, None;
    if ';' in item {
      var parts := Split(item, ';');
      if |parts| != 2 {
        return r, warning, Some(UnpackError);
      }
      var text, pos := parts[0], parts[1];
      if IsRowSpec(pos) {
        r := PrependRow(replacePos, text, pos[3]);
      } else if IsColSpec(pos) {
        r := PrependColumn(replacePos, text, pos[3..]);
      } else {
        warning := Some(InvalidPosition(item));
      }
    } else {
      warning := Some(InvalidFormat(item));
    }
  }

  /** What the loop over the Row/Col lines holds after its first k lines:
      no exception yet, the warnings shown so far, and `replace_pos` holding
      their entries read backwards followed by the single-well lines. */
  ghost predicate Prepended(lines: seq<string>, k: nat, direct: seq<string>,
                            replacePos: seq<string>, warnings: seq<Warning>)
    requires k <= |lines|
  {
    var done := ExpandAll(lines[..k]);
    done.error.None? && warnings == done.warnings && replacePos == Reverse(done.entries) + direct
  }

  /** The loop over the Row/Col lines: each valid directive's entries are
      inserted, one by one, at position 0 of `replace_pos`. */
  method PrependExpansions(direct: seq<string>, colrow: seq<string>)
    returns (replacePos: seq<string>, warnings: seq<Warning>, error: Option<Error>)
    ensures warnings == ExpandAll(colrow).warnings && error == ExpandAll(colrow).error
    ensures error.None? ==> replacePos == Reverse(ExpandAll(colrow).entries) + direct
  {
    replacePos := direct;
    warnings := [];
    var k := 0;
    while k < |colrow|
      invariant 0 <= k <= |colrow|
      invariant Prepended(colrow, k, direct, replacePos, warnings)
    {
      var r, ws, err := PrependNext(colrow, k, direct, replacePos, warnings);
      if err.Some? {
        return r, ws, err;
      }
      replacePos, warnings := r, ws;
      k := k + 1;
    }
    assert colrow[..k] == colrow;
    error := None;
  }

  /** One pass of that loop, over line k. */
  method PrependNext(colrow: seq<string>, k: nat, direct: seq<string>,
                     replacePos: seq<string>, warnings: seq<Warning>)
    returns (r: seq<string>, ws: seq<Warning>, err: Option<Error>)
    requires k < |colrow| && Prepended(colrow, k, direct, replacePos, warnings)
    ensures err.None? ==> Prepended(colrow, k + 1, direct, r, ws)
    ensures err.Some? ==> ws == ExpandAll(colrow).warnings && err == ExpandAll(colrow).error
  {
    ExpandAllNext(colrow, k);
    var warning;
    r, warning, err := PrependDirective(replacePos, colrow[k]);
    if err.Some? {
      ExpandAllErrorPersists(colrow, k + 1);
      return r, warnings, err;
    }
    PrependStep(ExpandAll(colrow[..k]), ExpandDirective(colrow[k]), direct, replacePos, r, warning);
    ws := if warning.Some? then warnings + [warning.value] else warnings;
  }

  /** One pass of that loop keeps `replace_pos` equal to the walk's entries
      read backwards, followed by the single-well lines. */
  lemma PrependStep(done: Expanded, x: Expansion, direct: seq<string>, replacePos: seq<string>,
                    r: seq<string>, warning: Option<Warning>)
    requires done.error.None? && replacePos == Reverse(done.entries) + direct
    requires match x
             case Wells(es) => r == Reverse(es) + replacePos && warning.None?
             case Rejected(w) => r == replacePos && warning == Some(w)
             case Raised(_) => false
    ensures var next := Advance(done, x);
            && next.error.None?
            && next.warnings == done.warnings + (if warning.Some? then [warning.value] else [])
            && r == Reverse(next.entries) + direct
  {
    if x.Wells? {
      ReverseAppend(done.entries, x.entries);
    }
  }

  /** The list the grid is written from: the expansions of the Row/Col lines
      read backwards, then the single-well lines in input order. */
  function FinalList(lines: seq<string>): seq<string>
  {
    Reverse(ExpandAll(ColRowLines(lines)).entries) + DirectLines(lines)
  }

  /** What the function returns: the plate and the final list. */
  datatype Processed = Processed(frame: Frame, entries: seq<string>)

  /** The warnings shown, in order, and the returned value or the exception. */
  datatype Outcome = Outcome(warnings: seq<Warning>, result: Result<Processed, Error>)

  /** The whole of `process_plate_positions` as a function of its inputs. */
  function Process(textInput: string, sample: string): Outcome
  {
    var lines := Lines(textInput);
    var ex := ExpandAll(ColRowLines(lines));
    var shown := FormatWarning(lines) + ex.warnings;
    if ex.error.Some? then Outcome(shown, Failure(ex.error.value))
    else Checked(shown, FinalList(lines), sample)
  }

  /** The part after the expansion: the two checks on the final list, then
      the grid writes. */
  function Checked(shown: seq<Warning>, entries: seq<string>, sample: string): Outcome
  {
    var checked := shown + (if |entries| != |set x | x in entries| then [RepeatedEntries] else []);
    match ConflictCheck(entries)
    case Failure(e) => Outcome(checked, Failure(e))
    case Success(conflict) =>
      var all := checked + (if conflict then [ConflictingLabels] else []);
      match ApplyWrites(FilledFrame(sample), entries)
      case Failure(e) => Outcome(all, Failure(e))
      case Success(f) => Outcome(all, Success(Processed(f, entries)))
  }

  /** The two checks on the final list and the grid writes. */
  method CheckAndWrite(shown: seq<Warning>, replacePos: seq<string>, sampleName: string)
    returns (warnings: seq<Warning>, error: Option<Error>, plate: PlateFrame?)
    ensures warnings == Checked(shown, replacePos, sampleName).warnings
    ensures match Checked(shown, replacePos, sampleName).result
            case Failure(e) => error == Some(e)
            case Success(p) => error.None? && plate != null && fresh(plate) && plate.Snapshot() == p.frame
  {
    warnings := shown;
    if |replacePos| != |set x | x in replacePos| {
      warnings := warnings + [RepeatedEntries];
    }
    var conflict := CheckConflicts(replacePos);
    if conflict.Failure? {
      return warnings, Some(conflict.error), null;
    }
    if conflict.value {
      warnings := warnings + [ConflictingLabels];
    }
    plate := new PlateFrame.Filled(sampleName);
    error := WriteEntries(plate, replacePos);
  }

  /** `process_plate_positions(text_input, sample_name)`: the warnings shown,
      and either the exception raised or the new plate and the final list. */
  method ProcessPlatePositions(textInput: string, sampleName: string)
    returns (warnings: seq<Warning>, error: Option<Error>, plate: PlateFrame?, replacePos: seq<string>)
    ensures warnings == Process(textInput, sampleName).warnings
    ensures match Process(textInput, sampleName).result
            case Failure(e) => error == Some(e)
            case Success(p) => error.None? && plate != null && fresh(plate)
                               && plate.Snapshot() == p.frame && replacePos == p.entries
  {
    var lines := NonBlank(Split(textInput, '\n'));
    warnings := CheckFormat(lines);
    var colrow := ColRowLines(lines);
    var direct := DirectLines(lines);
    var expandWarnings, expandError;
    replacePos, expandWarnings, expandError := PrependExpansions(direct, colrow);
    warnings := warnings + expandWarnings;
    if expandError.Some? {
      return warnings, expandError, null, replacePos;
    }
    warnings, error, plate := CheckAndWrite(warnings, replacePos, sampleName);
  }

  /** With the writes made in list order, a single-well line beats every
      Row/Col directive, among the directives the expansion that comes first
      in generation order wins, and a well that nothing names keeps the
      default label. */
  lemma DirectLinesWin(textInput: string, sample: string, c: Cell)
    requires Process(textInput, sample).result.Success?
    ensures var lines := Lines(textInput);
            var f := Process(textInput, sample).result.value.frame;
            var direct := LastLabel(DirectLines(lines), c);
            var expanded := FirstLabel(ExpandAll(ColRowLines(lines)).entries, c);
            && (direct.Some? ==> c in f.cells && f.cells[c] == direct.value)
            && (direct.None? && expanded.Some? ==> c in f.cells && f.cells[c] == expanded.value)
            && (direct.None? && expanded.None? ==>
                  (c in f.cells <==> IsPlateCell(c)) && (IsPlateCell(c) ==> f.cells[c] == sample))
  {
    var lines := Lines(textInput);
    var generated := ExpandAll(ColRowLines(lines)).entries;
    ApplyWritesLastWins(FilledFrame(sample), FinalList(lines), c);
    LastLabelAppend(Reverse(generated), DirectLines(lines), c);
    LastLabelReverse(generated, c);
  }

  /** Of two blocks of Row/Col lines, the earlier block's expansion names a
      well first, so with the list read backwards it is written last. */
  lemma EarlierDirectiveWins(a: seq<string>, b: seq<string>, c: Cell)
    requires ExpandAll(a + b).error.None?
    requires FirstLabel(ExpandAll(a).entries, c).Some?
    ensures FirstLabel(ExpandAll(a + b).entries, c) == FirstLabel(ExpandAll(a).entries, c)
  {
    ExpandAllAppend(a, b);
    FirstLabelAppend(ExpandAll(a).entries, ExpandAll(b).entries, c);
  }

  /** When every single-well line names a well of the plate, the result is
      the 8 x 12 plate and its long form is its 96 cells, row by row. */
  lemma ProcessedPlate(textInput: string, sample: string)
    requires Process(textInput, sample).result.Success?
    requires forall e :: e in DirectLines(Lines(textInput)) && WriteStep(e).Write? ==> IsPlateCell(WriteStep(e).cell)
    ensures var f := Process(textInput, sample).result.value.frame;
            && f.Valid() && f.IsPlate()
            && RowMajor(f, LongFormat(f))
  {
    var lines := Lines(textInput);
    var generated := ExpandAll(ColRowLines(lines)).entries;
    var entries := FinalList(lines);
    ExpandedWrites(ColRowLines(lines));
    ReverseMembers(generated);
    var steps := StepsOf(entries);
    forall i | 0 <= i < |steps| && steps[i].Write?
      ensures IsPlateCell(steps[i].cell)
    {
      assert entries[i] in Reverse(generated) || entries[i] in DirectLines(lines);
    }
    ApplyStepsKeepPlate(FilledFrame(sample), steps);
    LongFormatRowMajor(Process(textInput, sample).result.value.frame);
  }

  /** After the expansion, "mentioned more than once" is shown exactly when
      the final list has fewer distinct lines than lines. */
  lemma CheckedRepeatIff(shown: seq<Warning>, entries: seq<string>, sample: string)
    requires RepeatedEntries !in shown
    ensures RepeatedEntries in Checked(shown, entries, sample).warnings <==> |entries| != |set x | x in entries|
  {
  }

  /** "Mentioned more than once" is shown exactly when the final list holds
      the same line twice. */
  lemma RepeatWarningIff(textInput: string, sample: string)
    ensures var entries := FinalList(Lines(textInput));
            RepeatedEntries in Process(textInput, sample).warnings <==>
              ExpandAll(ColRowLines(Lines(textInput))).error.None?
              && exists i, j :: 0 <= i < j < |entries| && entries[i] == entries[j]
  {
    var lines := Lines(textInput);
    var ex := ExpandAll(ColRowLines(lines));
    var shown := FormatWarning(lines) + ex.warnings;
    assert RepeatedEntries !in shown;
    if ex.error.None? {
      CheckedRepeatIff(shown, FinalList(lines), sample);
      RepeatIff(FinalList(lines));
    }
  }

  /** After the expansion, the unpacking exception is raised exactly when
      some entry of the final list holds two or more ';'. */
  lemma CheckedUnpackIff(shown: seq<Warning>, entries: seq<string>, sample: string)
    ensures Checked(shown, entries, sample).result == Failure(UnpackError) <==>
            exists x :: x in entries && Count(x, ';') >= 2
  {
    if ConflictCheck(entries).Success? {
      ApplyWritesNoUnpack(FilledFrame(sample), entries);
    }
  }

  /** After the expansion, "different labels" is shown exactly when the
      conflict check finds a repeated location. */
  lemma CheckedConflictIff(shown: seq<Warning>, entries: seq<string>, sample: string)
    requires ConflictingLabels !in shown
    ensures ConflictingLabels in Checked(shown, entries, sample).warnings <==> ConflictCheck(entries) == Success(true)
  {
  }

  /** "Different labels" is shown exactly when two distinct entries of the
      final list share the location text after the `;`. */
  lemma ConflictWarningIffProcess(textInput: string, sample: string)
    ensures var entries := FinalList(Lines(textInput));
            ConflictingLabels in Process(textInput, sample).warnings <==>
              && ExpandAll(ColRowLines(Lines(textInput))).error.None?
              && ConflictCheck(entries).Success?
              && exists x, y :: x in entries && y in entries && x != y && Count(x, ';') == 1 && Count(y, ';') == 1
                                && PosOf(x) == PosOf(y) && LabelOf(x) != LabelOf(y)
  {
    var lines := Lines(textInput);
    var ex := ExpandAll(ColRowLines(lines));
    var entries := FinalList(lines);
    var shown := FormatWarning(lines) + ex.warnings;
    assert ConflictingLabels !in shown;
    if ex.error.None? {
      CheckedConflictIff(shown, entries, sample);
      if ConflictCheck(entries).Success? {
        ConflictWarningIff(entries);
      }
    }
  }

  /** A line with two or more ';' makes the function raise the unpacking
      exception, whether it is a Row/Col line or a single-well line. */
  lemma UnpackErrorFromLine(textInput: string, sample: string, l: string)
    requires l in Split(textInput, '\n') && Count(l, ';') >= 2
    ensures Process(textInput, sample).result == Failure(UnpackError)
  {
    var lines := Lines(textInput);
    var colrow := ColRowLines(lines);
    var ex := ExpandAll(colrow);
    SeparatorLineKept(textInput, l);
    ColRowFilterMembers(lines);
    if IsColRow(l) {
      ExpandAllRaises(colrow, l);
    } else if ex.error.None? {
      ReverseMembers(ex.entries);
      assert l in FinalList(lines);
      CheckedUnpackIff(FormatWarning(lines) + ex.warnings, FinalList(lines), sample);
    }
  }

  /** A line holding ';' is not blank, so it is among the lines worked on. */
  lemma SeparatorLineKept(textInput: string, l: string)
    requires l in Split(textInput, '\n') && ';' in l
    ensures l in Lines(textInput)
  {
    StripEmpty(l);
    var i :| 0 <= i < |l| && l[i] == ';';
    assert !IsSpace(l[i]);
  }

  /** The unpacking exception comes only from such a line: expansion entries
      hold exactly one ';'. */
  lemma UnpackErrorOnlyFromLine(textInput: string, sample: string)
    requires Process(textInput, sample).result == Failure(UnpackError)
    ensures exists l :: l in Split(textInput, '\n') && Count(l, ';') >= 2
  {
    var lines := Lines(textInput);
    var colrow := ColRowLines(lines);
    var ex := ExpandAll(colrow);
    if ex.error.None? {
      var entries := FinalList(lines);
      CheckedUnpackIff(FormatWarning(lines) + ex.warnings, entries, sample);
      var x :| x in entries && Count(x, ';') >= 2;
      ReverseMembers(ex.entries);
      ExpandedWrites(colrow);
      ColRowFilterMembers(lines);
      assert x in DirectLines(lines);
    } else {
      var l := ExpandAllErrorFromLine(colrow);
      ColRowFilterMembers(lines);
      assert l in lines;
    }
  }

  /** The unpacking exception is raised exactly when some line holds two or
      more ';'. */
  lemma UnpackErrorIff(textInput: string, sample: string)
    ensures Process(textInput, sample).result == Failure(UnpackError) <==>
            exists l :: l in Split(textInput, '\n') && Count(l, ';') >= 2
  {
    if l :| l in Split(textInput, '\n') && Count(l, ';') >= 2 {
      UnpackErrorFromLine(textInput, sample, l);
    }
    if Process(textInput, sample).result == Failure(UnpackError) {
      UnpackErrorOnlyFromLine(textInput, sample);
    }
  }
}
