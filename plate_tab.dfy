/** The parsing and grid body of `plate_design_tab` (tabs/plate_tab.py):
    the older variant, which keeps blank lines, APPENDS the Row/Col entries
    after the single-well lines, and warns only about conflicting labels. */
module PlateTab {
  import opened Wrappers
  import opened Text
  import opened PlateFrames
  import opened PlateAnnotations

  /** A `RowX` line: the twelve entries of row X, added at the end of the
      list one after the other. */
  method AppendRow(replacePos: seq<string>, text: string, letter: char) returns (r: seq<string>)
    ensures r == replacePos + RowEntries(text, letter)
  {
    ghost var es := RowEntries(text, letter);
    r := replacePos;
    var number := 1;
    while number < 13
      invariant 1 <= number <= 13
      invariant r == replacePos + es[..number - 1]
    {
      assert es[..number] == es[..number - 1] + [es[number - 1]];
      r := r + [text + ";" + [letter] + NatToDecimal(number)];
      number := number + 1;
    }
    assert es[..12] == es;
  }

  /** A `ColN` line: the eight entries of column N, added at the end of the
      list one after the other. */
  method AppendColumn(replacePos: seq<string>, text: string, digits: string) returns (r: seq<string>)
    ensures r == replacePos + ColEntries(text, digits)
  {
    ghost var es := ColEntries(text, digits);
    r := replacePos;
    var i := 0;
    while i < 8
      invariant 0 <= i <= 8
      invariant r == replacePos + es[..i]
    {
      assert es[..i + 1] == es[..i] + [es[i]];
      r := r + [text + ";" + [RowLabels[i]] + digits];
      i := i + 1;
    }
    assert es[..8] == es;
  }

  /** The body of the loop over the Row/Col lines for one line: its entries
      appended, or a warning, or the unpacking exception. */
  method AppendDirective(replacePos: seq<string>, item: string)
    returns (r: seq<string>, warning: Option<Warning>, error: Option<Error>)
    ensures match ExpandDirective(item)
            case Wells(es) => r == replacePos + es && warning.None? && error.None?
            case Rejected(w) => r == replacePos && warning == Some(w) && error.None?
            case Raised(e) => error == Some(e)
  {
    r, warning, error := replacePos, None, None;
    if ';' in item {
      var parts := Split(item, ';');
      if |parts| != 2 {
        return r, warning, Some(UnpackError);
      }
      var text, pos := parts[0], parts[1];
      if IsRowSpec(pos) {
        r := AppendRow(replacePos, text, pos[3]);
      } else if IsColSpec(pos) {
        r := AppendColumn(replacePos, text, pos[3..]);
      } else {
        warning := Some(InvalidPosition(item));
      }
    } else {
      warning := Some(InvalidFormat(item));
    }
  }

  /** What the loop over the Row/Col lines holds after its first k lines:
      no exception yet, the warnings shown so far, and `replace_pos` holding
      the single-well lines followed by their entries in input order. */
  ghost predicate Appended(lines: seq<string>, k: nat, direct: seq<string>,
                           replacePos: seq<string>, warnings: seq<Warning>)
    requires k <= |lines|
  {
    var done := ExpandAll(lines[..k]);
    done.error.None? && warnings == done.warnings && replacePos == direct + done.entries
  }

  /** The loop over the Row/Col lines: each valid directive's entries are
      appended to `replace_pos`, in input order. */
  method AppendExpansions(direct: seq<string>, colrow: seq<string>)
    returns (replacePos: seq<string>, warnings: seq<Warning>, error: Option<Error>)
    ensures warnings == ExpandAll(colrow).warnings && error == ExpandAll(colrow).error
    ensures error.None? ==> replacePos == direct + ExpandAll(colrow).entries
  {
    replacePos := direct;
    warnings := [];
    var k := 0;
    while k < |colrow|
      invariant 0 <= k <= |colrow|
      invariant Appended(colrow, k, direct, replacePos, warnings)
    {
      var r, ws, err := AppendNext(colrow, k, direct, replacePos, warnings);
      if err.Some? {
        return r, ws, err;
      }
      replacePos, warnings := r, ws;
      k := k + 1;
    }
    assert colrow[..k] == colrow;
    error := None;
  }

  /** One pass of that loop, over line k. */
  method AppendNext(colrow: seq<string>, k: nat, direct: seq<string>,
                    replacePos: seq<string>, warnings: seq<Warning>)
    returns (r: seq<string>, ws: seq<Warning>, err: Option<Error>)
    requires k < |colrow| && Appended(colrow, k, direct, replacePos, warnings)
    ensures err.None? ==> Appended(colrow, k + 1, direct, r, ws)
    ensures err.Some? ==> ws == ExpandAll(colrow).warnings && err == ExpandAll(colrow).error
  {
    ExpandAllNext(colrow, k);
    var warning;
    r, warning, err := AppendDirective(replacePos, colrow[k]);
    if err.Some? {
      ExpandAllErrorPersists(colrow, k + 1);
      return r, warnings, err;
    }
    ghost var done := ExpandAll(colrow[..k]);
    ghost var x := ExpandDirective(colrow[k]);
    if x.Wells? {
      assert r == direct + (done.entries + x.entries);
    }
    ws := if warning.Some? then warnings + [warning.value] else warnings;
  }

  /** The list the grid is written from: the single-well lines (blank lines
      included) in input order, then the expansions in input order. */
  function TabList(lines: seq<string>): seq<string>
  {
    DirectLines(lines) + ExpandAll(ColRowLines(lines)).entries
  }

  /** The plate and its long form. */
  datatype Designed = Designed(frame: Frame, long: seq<LongEntry>)

  /** The warnings shown, in order, and the plate or the exception. */
  datatype TabOutcome = TabOutcome(warnings: seq<Warning>, result: Result<Designed, Error>)

  /** Lines 18-70 of `plate_design_tab` as a function of the text and the
      default label. */
  function Design(textInput: string, sample: string): TabOutcome
  {
    var lines := Split(textInput, '\n');
    var ex := ExpandAll(ColRowLines(lines));
    if ex.error.Some? then TabOutcome(ex.warnings, Failure(ex.error.value))
    else Written(ex.warnings, TabList(lines), sample)
  }

  /** The part after the expansion: the conflict check, the grid writes and
      the long form. */
  function Written(shown: seq<Warning>, entries: seq<string>, sample: string): TabOutcome
  {
    match ConflictCheck(entries)
    case Failure(e) => TabOutcome(shown, Failure(e))
    case Success(conflict) =>
      var all := shown + (if conflict then [ConflictingLabels] else []);
      match ApplyWrites(FilledFrame(sample), entries)
      case Failure(e) => TabOutcome(all, Failure(e))
      case Success(f) => TabOutcome(all, Success(Designed(f, LongFormat(f))))
  }

  /** The conflict check, the grid writes and the long form. */
  method CheckAndWrite(shown: seq<Warning>, replacePos: seq<string>, sampleName: string)
    returns (warnings: seq<Warning>, error: Option<Error>, plate: PlateFrame?, long: seq<LongEntry>)
    ensures warnings == Written(shown, replacePos, sampleName).warnings
    ensures match Written(shown, replacePos, sampleName).result
            case Failure(e) => error == Some(e)
            case Success(d) => error.None? && plate != null && fresh(plate)
                               && plate.Snapshot() == d.frame && long == d.long
  {
    warnings, long := shown, [];
    var conflict := CheckConflicts(replacePos);
    if conflict.Failure? {
      return warnings, Some(conflict.error), null, long;
    }
    if conflict.value {
      warnings := warnings + [ConflictingLabels];
    }
    plate := new PlateFrame.Filled(sampleName);
    error := WriteEntries(plate, replacePos);
    if error.None? {
      long := LongFormat(plate.Snapshot());
    }
  }

  /** `plate_design_tab` from the text area to the long form: the warnings
      shown, and either the exception raised or the plate and its long form. */
  method PlateDesign(textInput: string, sampleName: string)
    returns (warnings: seq<Warning>, error: Option<Error>, plate: PlateFrame?, long: seq<LongEntry>)
    ensures warnings == Design(textInput, sampleName).warnings
    ensures match Design(textInput, sampleName).result
            case Failure(e) => error == Some(e)
            case Success(d) => error.None? && plate != null && fresh(plate)
                               && plate.Snapshot() == d.frame && long == d.long
  {
    var lines := Split(textInput, '\n');
    var colrow := ColRowLines(lines);
    var direct := DirectLines(lines);
    var replacePos, expandError;
    replacePos, warnings, expandError := AppendExpansions(direct, colrow);
    if expandError.Some? {
      return warnings, expandError, null, [];
    }
    warnings, error, plate, long := CheckAndWrite(warnings, replacePos, sampleName);
  }

  /** With the writes made in list order, a Row/Col directive beats a
      single-well line for the same well, the last directive naming a well
      wins, and a well that nothing names keeps the default label. */
  lemma DirectivesWin(textInput: string, sample: string, c: Cell)
    requires Design(textInput, sample).result.Success?
    ensures var lines := Split(textInput, '\n');
            var f := Design(textInput, sample).result.value.frame;
            var expanded := LastLabel(ExpandAll(ColRowLines(lines)).entries, c);
            var direct := LastLabel(DirectLines(lines), c);
            && (expanded.Some? ==> c in f.cells && f.cells[c] == expanded.value)
            && (expanded.None? && direct.Some? ==> c in f.cells && f.cells[c] == direct.value)
            && (expanded.None? && direct.None? ==>
                  (c in f.cells <==> IsPlateCell(c)) && (IsPlateCell(c) ==> f.cells[c] == sample))
  {
    var lines := Split(textInput, '\n');
    var generated := ExpandAll(ColRowLines(lines)).entries;
    ApplyWritesLastWins(FilledFrame(sample), TabList(lines), c);
    LastLabelAppend(DirectLines(lines), generated, c);
  }

  /** Of two blocks of Row/Col lines, the later block's expansion is written
      last, so it wins a well both name. */
  lemma LaterDirectiveWins(a: seq<string>, b: seq<string>, c: Cell)
    requires ExpandAll(a + b).error.None?
    requires LastLabel(ExpandAll(b).entries, c).Some?
    ensures LastLabel(ExpandAll(a + b).entries, c) == LastLabel(ExpandAll(b).entries, c)
  {
    ExpandAllAppend(a, b);
    LastLabelAppend(ExpandAll(a).entries, ExpandAll(b).entries, c);
  }

  /** When every single-well line names a well of the plate (lines without
      ';', blank ones included, name none), the result is the 8 x 12 plate
      and its long form is its 96 cells, row by row. */
  lemma DesignedPlate(textInput: string, sample: string)
    requires Design(textInput, sample).result.Success?
    requires forall e :: e in DirectLines(Split(textInput, '\n')) && WriteStep(e).Write? ==> IsPlateCell(WriteStep(e).cell)
    ensures var d := Design(textInput, sample).result.value;
            && d.frame.Valid() && d.frame.IsPlate()
            && RowMajor(d.frame, d.long)
  {
    var lines := Split(textInput, '\n');
    var generated := ExpandAll(ColRowLines(lines)).entries;
    var entries := TabList(lines);
    ExpandedWrites(ColRowLines(lines));
    var steps := StepsOf(entries);
    forall i | 0 <= i < |steps| && steps[i].Write?
      ensures IsPlateCell(steps[i].cell)
    {
      assert entries[i] in DirectLines(lines) || entries[i] in generated;
    }
    ApplyStepsKeepPlate(FilledFrame(sample), steps);
    LongFormatRowMajor(Design(textInput, sample).result.value.frame);
  }

  /** There is no "mentioned more than once" warning in this variant. */
  lemma NoRepeatWarning(textInput: string, sample: string)
    ensures RepeatedEntries !in Design(textInput, sample).warnings
  {
    var lines := Split(textInput, '\n');
    var ex := ExpandAll(ColRowLines(lines));
    assert RepeatedEntries !in ex.warnings;
    if ex.error.None? {
      WrittenWarnings(ex.warnings, TabList(lines), sample);
    }
  }

  /** After the expansion, the only warning that can be added is the
      "different labels" one. */
  lemma WrittenWarnings(shown: seq<Warning>, entries: seq<string>, sample: string)
    ensures var w := Written(shown, entries, sample).warnings;
            w == shown || w == shown + [ConflictingLabels]
  {
  }

  /** After the expansion, "different labels" is shown exactly when the
      conflict check finds a repeated location. */
  lemma WrittenConflictIff(shown: seq<Warning>, entries: seq<string>, sample: string)
    requires ConflictingLabels !in shown
    ensures ConflictingLabels in Written(shown, entries, sample).warnings <==> ConflictCheck(entries) == Success(true)
  {
  }

  /** "Different labels" is shown exactly when two distinct entries of the
      list share the location text after the `;`. */
  lemma ConflictWarningIffDesign(textInput: string, sample: string)
    ensures var entries := TabList(Split(textInput, '\n'));
            ConflictingLabels in Design(textInput, sample).warnings <==>
              && ExpandAll(ColRowLines(Split(textInput, '\n'))).error.None?
              && ConflictCheck(entries).Success?
              && exists x, y :: x in entries && y in entries && x != y && Count(x, ';') == 1 && Count(y, ';') == 1
                                && PosOf(x) == PosOf(y) && LabelOf(x) != LabelOf(y)
  {
    var lines := Split(textInput, '\n');
    var ex := ExpandAll(ColRowLines(lines));
    var entries := TabList(lines);
    if ex.error.None? {
      WrittenConflictIff(ex.warnings, entries, sample);
      if ConflictCheck(entries).Success? {
        ConflictWarningIff(entries);
      }
    }
  }

  /** After the expansion, the unpacking exception is raised exactly when
      some entry of the list holds two or more ';'. */
  lemma WrittenUnpackIff(shown: seq<Warning>, entries: seq<string>, sample: string)
    ensures Written(shown, entries, sample).result == Failure(UnpackError) <==>
            exists x :: x in entries && Count(x, ';') >= 2
  {
    if ConflictCheck(entries).Success? {
      ApplyWritesNoUnpack(FilledFrame(sample), entries);
    }
  }

  /** The unpacking exception is raised exactly when some line holds two or
      more ';'. */
  lemma UnpackErrorIffDesign(textInput: string, sample: string)
    ensures Design(textInput, sample).result == Failure(UnpackError) <==>
            exists l :: l in Split(textInput, '\n') && Count(l, ';') >= 2
  {
    var lines := Split(textInput, '\n');
    var colrow := ColRowLines(lines);
    var ex := ExpandAll(colrow);
    ColRowFilterMembers(lines);
    if ex.error.None? {
      var entries := TabList(lines);
      WrittenUnpackIff(ex.warnings, entries, sample);
      ExpandedWrites(colrow);
      if x :| x in entries && Count(x, ';') >= 2 {
        assert x in DirectLines(lines);
      }
      if l :| l in lines && Count(l, ';') >= 2 {
        assert !IsColRow(l) by {
          if IsColRow(l) {
            ExpandAllRaises(colrow, l);
          }
        }
        assert l in entries;
      }
    } else {
      assert ex.error == Some(UnpackError);
      assert Design(textInput, sample).result == Failure(UnpackError);
      var l := ExpandAllErrorFromLine(colrow);
      assert l in lines;
      assert exists m :: m in Split(textInput, '\n') && Count(m, ';') >= 2;
    }
  }
}
