/** The `Label;Location` annotation lines, shared by both plate builders
    (func/plate_plot.py and tabs/plate_tab.py): Row/Col expansion, the
    conflict check, and the cell writes into the plate frame. */
module PlateAnnotations {
  import opened Wrappers
  import opened Text
  import opened PlateFrames
  import opened Lists

  /** The advisory messages shown to the user; none stops the computation. */
  datatype Warning =
    | InvalidFormat(line: string)    // not exactly one ';', or a listed symbol
    | InvalidPosition(line: string)  // a Row/Col line whose location is not RowX or ColN
    | RepeatedEntries                // "mentioned more than once"
    | ConflictingLabels              // "mentioned more than one time with different labels"

  /** The exceptions that abort the computation. */
  datatype Error =
    | UnpackError          // unpacking an entry with two or more ';' into label and location
    | IndexError           // reading the row letter of an empty location
    | IntError(literal: string)  // a column part that is not an integer literal

  /** A line with either `Row` or `Col` anywhere (its label included). */
  predicate IsColRow(line: string)
  {
    Contains(line, "Col") || Contains(line, "Row")
  }

  /** `RowX` with X one of A–H. */
  predicate IsRowSpec(pos: string)
  {
    StartsWith(pos, "Row") && |pos| == 4 && pos[3] in "ABCDEFGH"
  }

  /** `ColN` with N one or two ASCII digits whose value lies in 1..12. */
  predicate IsColSpec(pos: string)
  {
    StartsWith(pos, "Col") && 4 <= |pos| <= 5 && IsDigits(pos[3..]) && 1 <= DigitsValue(pos[3..]) <= 12
  }

  /** The Row/Col lines, in input order. */
  function ColRowLines(lines: seq<string>): (r: seq<string>)
    ensures |r| <= |lines|
  {
    if |lines| == 0 then []
    else ColRowLines(lines[..|lines| - 1]) + (if IsColRow(lines[|lines| - 1]) then [lines[|lines| - 1]] else [])
  }

  /** The lines that name a single well, in input order. */
  function DirectLines(lines: seq<string>): (r: seq<string>)
    ensures |r| <= |lines|
  {
    if |lines| == 0 then []
    else DirectLines(lines[..|lines| - 1]) + (if IsColRow(lines[|lines| - 1]) then [] else [lines[|lines| - 1]])
  }

  /** A line is among the Row/Col lines exactly when it is a line with
      `Row` or `Col` in it, and among the direct lines exactly when it is a
      line without. */
  lemma {:induction false} ColRowFilterMembers(lines: seq<string>)
    ensures forall x :: x in ColRowLines(lines) <==> x in lines && IsColRow(x)
    ensures forall x :: x in DirectLines(lines) <==> x in lines && !IsColRow(x)
  {
    if |lines| > 0 {
      var n := |lines| - 1;
      ColRowFilterMembers(lines[..n]);
      assert lines == lines[..n] + [lines[n]];
    }
  }

  /** The two filters split the lines between them: each line goes to
      exactly one of them, as often as it occurs. */
  lemma {:induction false} ColRowDirectPartition(lines: seq<string>)
    ensures multiset(ColRowLines(lines)) + multiset(DirectLines(lines)) == multiset(lines)
  {
    if |lines| > 0 {
      var n := |lines| - 1;
      ColRowDirectPartition(lines[..n]);
      assert lines == lines[..n] + [lines[n]];
    }
  }

  /** The entries a valid `RowX` produces, in the order they are generated:
      `text;X1` .. `text;X12`. */
  function RowEntries(text: string, letter: char): (es: seq<string>)
    ensures |es| == 12
  {
    seq(12, i requires 0 <= i < 12 => text + ";" + [letter] + NatToDecimal(i + 1))
  }

  /** The entries a valid `ColN` produces, in the order they are generated:
      `text;AN` .. `text;HN`, with N copied as written. */
  function ColEntries(text: string, digits: string): (es: seq<string>)
    ensures |es| == 8
  {
    seq(8, i requires 0 <= i < 8 => text + ";" + ["ABCDEFGH"[i]] + digits)
  }

  /** What one Row/Col line turns into. */
  datatype Expansion = Wells(entries: seq<string>) | Rejected(warning: Warning) | Raised(error: Error)

  function ExpandDirective(line: string): Expansion
  {
    if ';' !in line then Rejected(InvalidFormat(line))
    else
      var parts := Split(line, ';');
      if |parts| != 2 then Raised(UnpackError)
      else
        var text, pos := parts[0], parts[1];
        if IsRowSpec(pos) then Wells(RowEntries(text, pos[3]))
        else if IsColSpec(pos) then Wells(ColEntries(text, pos[3..]))
        else Rejected(InvalidPosition(line))
  }

  /** The expansions of a list of Row/Col lines, in input order and generation
      order, the warnings shown on the way, and the exception, if any, that
      stopped the walk. */
  datatype Expanded = Expanded(entries: seq<string>, warnings: seq<Warning>, error: Option<Error>)

  function ExpandAll(lines: seq<string>): (r: Expanded)
    ensures forall w :: w in r.warnings ==> w.InvalidFormat? || w.InvalidPosition?
    ensures r.error.Some? ==> r.error.value == UnpackError
  {
    if |lines| == 0 then Expanded([], [], None)
    else
      var prev := ExpandAll(lines[..|lines| - 1]);
      if prev.error.Some? then prev
      else Advance(prev, ExpandDirective(lines[|lines| - 1]))
  }

  /** One line of the walk after lines that did not raise: its entries are
      added, its warning is shown, or its exception stops the walk. */
  function Advance(prev: Expanded, x: Expansion): Expanded
  {
    match x
    case Wells(es) => Expanded(prev.entries + es, prev.warnings, None)
    case Rejected(w) => Expanded(prev.entries, prev.warnings + [w], None)
    case Raised(e) => Expanded(prev.entries, prev.warnings, Some(e))
  }

  /** The location of an entry: the text after its first ';'. */
  function PosOf(e: string): string
  {
    var parts := Split(e, ';');
    if |parts| > 1 then parts[1] else ""
  }

  /** The label of an entry: the text before its first ';'. */
  function LabelOf(e: string): string
  {
    Split(e, ';')[0]
  }

  /** A generated entry splits back into the directive's label and a
      location made of a row letter and column digits. */
  lemma GeneratedEntry(text: string, letter: char, digits: string)
    requires ';' !in text && letter != ';' && IsDigits(digits)
    ensures Count(text + ";" + [letter] + digits, ';') == 1
    ensures LabelOf(text + ";" + [letter] + digits) == text
    ensures PosOf(text + ";" + [letter] + digits) == [letter] + digits
  {
    var pos := [letter] + digits;
    assert ';' !in pos by {
      assert forall i :: 1 <= i < |pos| ==> pos[i] == digits[i - 1] && IsDigit(digits[i - 1]);
    }
    assert text + ";" + [letter] + digits == text + [';'] + pos;
    SplitPrefix(text, pos, ';');
    SplitNoSeparator(pos, ';');
    CountAppend(text, [';'] + pos, ';');
    CountAppend([';'], pos, ';');
  }

  /** What one entry of the final list does to the frame. */
  datatype Step = Skip | Write(cell: Cell, text: string) | Fail(error: Error)

  /** One entry of the list: it is split at ';' into label and location, the
      location's first character is the row and the rest, read as an integer,
      the column; the label is written to that well. An entry without ';' is
      skipped. */
  function WriteStep(item: string): Step
  {
    if ';' !in item then Skip
    else
      var parts := Split(item, ';');
      if |parts| != 2 then Fail(UnpackError)
      else
        var text, pos := parts[0], parts[1];
        if |pos| == 0 then Fail(IndexError)
        else
          match ParseInt(pos[1..])
          case None => Fail(IntError(pos[1..]))
          case Some(n) => Write(Cell(pos[0], IntToDecimal(n - 1 + 1)), text)
  }

  function StepsOf(items: seq<string>): seq<Step>
  {
    seq(|items|, i requires 0 <= i < |items| => WriteStep(items[i]))
  }

  /** The frame after carrying out the steps in order; the first failing step
      aborts. */
  function ApplySteps(f: Frame, steps: seq<Step>): Result<Frame, Error>
  {
    if |steps| == 0 then Success(f)
    else
      match ApplySteps(f, steps[..|steps| - 1])
      case Failure(e) => Failure(e)
      case Success(g) => Perform(g, steps[|steps| - 1])
  }

  /** One step on a frame: nothing, a cell written, or the step's exception. */
  function Perform(g: Frame, step: Step): Result<Frame, Error>
  {
    match step
    case Skip => Success(g)
    case Write(c, text) => Success(g.Set(c.row, c.column, text))
    case Fail(e) => Failure(e)
  }

  /** The frame after writing the items of the final list in order. */
  function ApplyWrites(f: Frame, items: seq<string>): Result<Frame, Error>
  {
    ApplySteps(f, StepsOf(items))
  }

  /** The label of the last step that writes `c`, if any. */
  function LastWrite(steps: seq<Step>, c: Cell): Option<string>
  {
    if |steps| == 0 then None
    else if steps[|steps| - 1].Write? && steps[|steps| - 1].cell == c then Some(steps[|steps| - 1].text)
    else LastWrite(steps[..|steps| - 1], c)
  }

  /** The label of the last item of the list that writes `c`, if any. */
  function LastLabel(items: seq<string>, c: Cell): Option<string>
  {
    LastWrite(StepsOf(items), c)
  }

  /** The label of the first step that writes `c`, if any. */
  function FirstWrite(steps: seq<Step>, c: Cell): Option<string>
  {
    if |steps| == 0 then None
    else if steps[0].Write? && steps[0].cell == c then Some(steps[0].text)
    else FirstWrite(steps[1..], c)
  }

  /** The label of the first item of the list that writes `c`, if any. */
  function FirstLabel(items: seq<string>, c: Cell): Option<string>
  {
    FirstWrite(StepsOf(items), c)
  }

  lemma StepsOfAppend(a: seq<string>, b: seq<string>)
    ensures StepsOf(a + b) == StepsOf(a) + StepsOf(b)
  {
  }

  lemma StepsOfReverse(a: seq<string>)
    ensures StepsOf(Reverse(a)) == Reverse(StepsOf(a))
  {
    ReverseIndex(a);
    ReverseIndex(StepsOf(a));
  }

  /** In a concatenation the last write to a cell comes from the second part
      when that part writes the cell at all. */
  lemma {:induction false} LastWriteAppend(a: seq<Step>, b: seq<Step>, c: Cell)
    ensures LastWrite(a + b, c) == if LastWrite(b, c).Some? then LastWrite(b, c) else LastWrite(a, c)
    decreases |b|
  {
    if |b| == 0 {
      assert a + b == a;
    } else {
      assert (a + b)[..|a + b| - 1] == a + b[..|b| - 1];
      LastWriteAppend(a, b[..|b| - 1], c);
    }
  }

  /** Read backwards, the last write to a cell is the first one. */
  lemma {:induction false} LastWriteReverse(s: seq<Step>, c: Cell)
    ensures LastWrite(Reverse(s), c) == FirstWrite(s, c)
    decreases |s|
  {
    if |s| > 0 {
      var r := Reverse(s);
      ReverseAppend([s[0]], s[1..]);
      assert s == [s[0]] + s[1..];
      assert r == Reverse(s[1..]) + [s[0]];
      assert r[..|r| - 1] == Reverse(s[1..]);
      LastWriteReverse(s[1..], c);
    }
  }

  /** The same, for the items of a list. */
  lemma LastLabelAppend(a: seq<string>, b: seq<string>, c: Cell)
    ensures LastLabel(a + b, c) == if LastLabel(b, c).Some? then LastLabel(b, c) else LastLabel(a, c)
  {
    StepsOfAppend(a, b);
    LastWriteAppend(StepsOf(a), StepsOf(b), c);
  }

  lemma LastLabelReverse(a: seq<string>, c: Cell)
    ensures LastLabel(Reverse(a), c) == FirstLabel(a, c)
  {
    StepsOfReverse(a);
    LastWriteReverse(StepsOf(a), c);
  }

  /** In a concatenation the first write to a cell comes from the first part
      when that part writes the cell at all. */
  lemma {:induction false} FirstWriteAppend(a: seq<Step>, b: seq<Step>, c: Cell)
    ensures FirstWrite(a + b, c) == if FirstWrite(a, c).Some? then FirstWrite(a, c) else FirstWrite(b, c)
    decreases |a|
  {
    if |a| == 0 {
      assert a + b == b;
    } else {
      assert (a + b)[1..] == a[1..] + b;
      FirstWriteAppend(a[1..], b, c);
    }
  }

  lemma FirstLabelAppend(a: seq<string>, b: seq<string>, c: Cell)
    ensures FirstLabel(a + b, c) == if FirstLabel(a, c).Some? then FirstLabel(a, c) else FirstLabel(b, c)
  {
    StepsOfAppend(a, b);
    FirstWriteAppend(StepsOf(a), StepsOf(b), c);
  }

  /** Expanding the lines of two blocks, without an exception, gives the
      entries of the first block followed by those of the second. */
  lemma {:induction false} ExpandAllAppend(a: seq<string>, b: seq<string>)
    requires ExpandAll(a + b).error.None?
    ensures ExpandAll(a).error.None? && ExpandAll(b).error.None?
    ensures ExpandAll(a + b).entries == ExpandAll(a).entries + ExpandAll(b).entries
    ensures ExpandAll(a + b).warnings == ExpandAll(a).warnings + ExpandAll(b).warnings
    decreases |b|
  {
    if |b| == 0 {
      assert a + b == a;
    } else {
      var n := |b| - 1;
      assert (a + b)[..|a + b| - 1] == a + b[..n];
      assert (a + b)[|a + b| - 1] == b[n];
      var p, q, x := ExpandAll(a + b[..n]), ExpandAll(b[..n]), ExpandDirective(b[n]);
      assert p.error.None?;
      ExpandAllAppend(a, b[..n]);
      AdvanceAfter(p, q, ExpandAll(a), x);
    }
  }

  /** A step of the walk commutes with putting a finished block in front. */
  lemma AdvanceAfter(p: Expanded, q: Expanded, front: Expanded, x: Expansion)
    requires p.entries == front.entries + q.entries && p.warnings == front.warnings + q.warnings
    ensures Advance(p, x).error == Advance(q, x).error
    ensures Advance(p, x).entries == front.entries + Advance(q, x).entries
    ensures Advance(p, x).warnings == front.warnings + Advance(q, x).warnings
  {
    match x
    case Wells(es) =>
      assert p.entries + es == front.entries + (q.entries + es);
    case Rejected(w) =>
      assert p.warnings + [w] == front.warnings + (q.warnings + [w]);
    case Raised(_) =>
  }

  /** One more line of the walk, when the lines before it did not raise. */
  lemma ExpandAllNext(lines: seq<string>, k: nat)
    requires k < |lines| && ExpandAll(lines[..k]).error.None?
    ensures ExpandAll(lines[..k + 1]) == Advance(ExpandAll(lines[..k]), ExpandDirective(lines[k]))
  {
    assert lines[..k + 1][..k] == lines[..k];
  }

  /** Once a prefix of the lines raises, the walk stops there. */
  lemma {:induction false} ExpandAllErrorPersists(lines: seq<string>, k: nat)
    requires k <= |lines| && ExpandAll(lines[..k]).error.Some?
    ensures ExpandAll(lines) == ExpandAll(lines[..k])
    decreases |lines|
  {
    if k < |lines| {
      assert lines[..|lines| - 1][..k] == lines[..k];
      ExpandAllErrorPersists(lines[..|lines| - 1], k);
    } else {
      assert lines[..k] == lines;
    }
  }

  /** The walk raises only on a line with two or more ';'. */
  lemma {:induction false} ExpandAllErrorFromLine(lines: seq<string>) returns (l: string)
    requires ExpandAll(lines).error.Some?
    ensures l in lines && Count(l, ';') >= 2
  {
    var n := |lines| - 1;
    if ExpandAll(lines[..n]).error.Some? {
      l := ExpandAllErrorFromLine(lines[..n]);
    } else {
      l := lines[n];
    }
  }

  /** A Row/Col line with two or more ';' makes the walk raise. */
  lemma {:induction false} ExpandAllRaises(lines: seq<string>, l: string)
    requires l in lines && Count(l, ';') >= 2
    ensures ExpandAll(lines).error == Some(UnpackError)
  {
    var n := |lines| - 1;
    if l == lines[n] {
      assert ';' in l;
    } else {
      assert l in lines[..n];
      ExpandAllRaises(lines[..n], l);
    }
  }

  /** An entry `text;Ld` with `d` the digits of a value in 1..12 writes `text`
      into well L`d`'s column. */
  lemma GeneratedWrite(text: string, letter: char, digits: string)
    requires ';' !in text && letter in RowLabels && IsDigits(digits) && 1 <= DigitsValue(digits) <= 12
    ensures Count(text + ";" + [letter] + digits, ';') == 1
    ensures WriteStep(text + ";" + [letter] + digits) == Write(Cell(letter, ColumnLabels[DigitsValue(digits) - 1]), text)
  {
    var e := text + ";" + [letter] + digits;
    var pos := [letter] + digits;
    GeneratedEntry(text, letter, digits);
    OneSeparatorParts(e);
    LocationColumn(letter, digits);
    WriteStepOfParts(e, text, pos, DigitsValue(digits));
  }

  /** An entry with one ';' splits into its label and its location. */
  lemma OneSeparatorParts(e: string)
    requires Count(e, ';') == 1
    ensures Split(e, ';') == [LabelOf(e), PosOf(e)]
  {
  }

  /** The tail of location `Ld`, with `d` the digits of a value in 1..12,
      reads back as that value, whose decimal form is its column label. */
  lemma LocationColumn(letter: char, digits: string)
    requires IsDigits(digits) && 1 <= DigitsValue(digits) <= 12
    ensures ([letter] + digits)[1..] == digits
    ensures ParseInt(([letter] + digits)[1..]) == Some(DigitsValue(digits))
    ensures IntToDecimal(DigitsValue(digits) - 1 + 1) == ColumnLabels[DigitsValue(digits) - 1]
  {
    assert ([letter] + digits)[1..] == digits;
    ParseIntDigits(digits);
    ColumnLabelsDecimal(DigitsValue(digits));
  }

  /** An entry that splits into a label and a location whose tail reads as
      the number n writes the label into column `str(n)` of the location's row. */
  lemma WriteStepOfParts(item: string, text: string, pos: string, n: int)
    requires Split(item, ';') == [text, pos] && |pos| > 0 && ParseInt(pos[1..]) == Some(n)
    ensures WriteStep(item) == Write(Cell(pos[0], IntToDecimal(n - 1 + 1)), text)
  {
    assert Count(item, ';') == 1;
  }

  /** What every entry of a list does: it holds exactly one ';' and writes
      `text` into a cell of the 8 x 12 plate. */
  predicate WritesOnPlate(es: seq<string>, text: string)
  {
    forall e :: e in es ==>
      Count(e, ';') == 1 && WriteStep(e).Write? && IsPlateCell(WriteStep(e).cell) && WriteStep(e).text == text
  }

  lemma RowEntriesWrite(text: string, letter: char)
    requires ';' !in text && letter in RowLabels
    ensures WritesOnPlate(RowEntries(text, letter), text)
  {
    var es := RowEntries(text, letter);
    forall i | 0 <= i < 12
      ensures Count(es[i], ';') == 1 && WriteStep(es[i]).Write? && IsPlateCell(WriteStep(es[i]).cell)
      ensures WriteStep(es[i]).text == text
    {
      var d := NatToDecimal(i + 1);
      assert IsDigits(d) && DigitsValue(d) == i + 1;
      assert es[i] == text + ";" + [letter] + d;
      GeneratedWrite(text, letter, d);
    }
  }

  lemma ColEntriesWrite(text: string, digits: string)
    requires ';' !in text && IsDigits(digits) && 1 <= DigitsValue(digits) <= 12
    ensures WritesOnPlate(ColEntries(text, digits), text)
  {
    var es := ColEntries(text, digits);
    forall i | 0 <= i < 8
      ensures Count(es[i], ';') == 1 && WriteStep(es[i]).Write? && IsPlateCell(WriteStep(es[i]).cell)
      ensures WriteStep(es[i]).text == text
    {
      GeneratedWrite(text, RowLabels[i], digits);
    }
  }

  /** Every entry a Row/Col line expands to writes the line's label into a
      cell of the 8 x 12 plate. */
  lemma DirectiveWrites(line: string)
    requires ExpandDirective(line).Wells?
    ensures WritesOnPlate(ExpandDirective(line).entries, LabelOf(line))
  {
    var parts := Split(line, ';');
    JoinSplit(line, ';');
    var text, pos := parts[0], parts[1];
    assert ';' !in text;
    if IsRowSpec(pos) {
      RowEntriesWrite(text, pos[3]);
    } else {
      ColEntriesWrite(text, pos[3..]);
    }
  }

  /** Row/Col expansion never writes outside the plate. */
  lemma {:induction false} ExpandedWrites(lines: seq<string>)
    ensures forall e :: e in ExpandAll(lines).entries ==> Count(e, ';') == 1 && WriteStep(e).Write? && IsPlateCell(WriteStep(e).cell)
  {
    if |lines| > 0 {
      var n := |lines| - 1;
      ExpandedWrites(lines[..n]);
      if ExpandAll(lines[..n]).error.None? && ExpandDirective(lines[n]).Wells? {
        DirectiveWrites(lines[n]);
      }
    }
  }

  /** The loop over the final list: each item holding ';' is written into
      its cell, in list order; the first malformed item stops the loop with
      its exception. */
  method WriteEntries(plate: PlateFrame, items: seq<string>) returns (error: Option<Error>)
    modifies plate
    ensures match ApplyWrites(old(plate.Snapshot()), items)
            case Success(f) => error == None && plate.Snapshot() == f
            case Failure(e) => error == Some(e)
  {
    ghost var start := plate.Snapshot();
    ghost var steps := StepsOf(items);
    var i := 0;
    while i < |items|
      invariant 0 <= i <= |items|
      invariant ApplySteps(start, steps[..i]) == Success(plate.Snapshot())
    {
      ApplyStepsNext(start, steps, i);
      var step := ParseEntry(items[i]);
      match step {
        case Skip =>
        case Fail(e) =>
          ApplyStepsFailurePersists(start, steps, i + 1);
          return Some(e);
        case Write(c, text) =>
          plate.SetAt(c.row, c.column, text);
      }
      i := i + 1;
    }
    assert steps[..i] == steps;
    error := None;
  }

  /** The body of that loop for one item, up to the write: an item without
      ';' is skipped; otherwise it is split at ';' into exactly two parts
      (or the unpacking fails), the row is the first character of the
      position (or indexing fails) and the column is `int` of the rest,
      less one, written back as decimal after adding one. */
  method ParseEntry(item: string) returns (step: Step)
    ensures step == WriteStep(item)
  {
    if ';' !in item {
      return Skip;
    }
    var parts := Split(item, ';');
    if |parts| != 2 {
      return Fail(UnpackError);
    }
    var text, pos := parts[0], parts[1];
    if |pos| == 0 {
      return Fail(IndexError);
    }
    var row := pos[0];
    var col := ParseInt(pos[1..]);
    if col.None? {
      return Fail(IntError(pos[1..]));
    }
    return Write(Cell(row, IntToDecimal(col.value - 1 + 1)), text);
  }

  /** One more step of the walk, when the steps before it succeeded. */
  lemma ApplyStepsNext(f: Frame, steps: seq<Step>, k: nat)
    requires k < |steps| && ApplySteps(f, steps[..k]).Success?
    ensures ApplySteps(f, steps[..k + 1]) == Perform(ApplySteps(f, steps[..k]).value, steps[k])
  {
    assert steps[..k + 1][..k] == steps[..k];
  }

  lemma {:induction false} ApplyStepsFailurePersists(f: Frame, steps: seq<Step>, k: nat)
    requires k <= |steps|
    requires ApplySteps(f, steps[..k]).Failure?
    ensures ApplySteps(f, steps) == ApplySteps(f, steps[..k])
    decreases |steps|
  {
    if k < |steps| {
      assert steps[..|steps| - 1][..k] == steps[..k];
      ApplyStepsFailurePersists(f, steps[..|steps| - 1], k);
    } else {
      assert steps[..k] == steps;
    }
  }

  /** Last write wins: after the steps, a cell holds the label of the last
      step writing it, or what it held before when no step writes it. */
  lemma {:induction false} ApplyStepsLastWins(f: Frame, steps: seq<Step>, c: Cell)
    requires ApplySteps(f, steps).Success?
    ensures var g := ApplySteps(f, steps).value;
            && (c in g.cells <==> c in f.cells || LastWrite(steps, c).Some?)
            && (LastWrite(steps, c).Some? ==> g.cells[c] == LastWrite(steps, c).value)
            && (LastWrite(steps, c).None? && c in f.cells ==> g.cells[c] == f.cells[c])
  {
    if |steps| > 0 {
      ApplyStepsLastWins(f, steps[..|steps| - 1], c);
    }
  }

  /** The items of the final list are written in order and the last write of
      a cell wins; a cell that no item names keeps its label. */
  lemma ApplyWritesLastWins(f: Frame, items: seq<string>, c: Cell)
    requires ApplyWrites(f, items).Success?
    ensures var g := ApplyWrites(f, items).value;
            && (c in g.cells <==> c in f.cells || LastLabel(items, c).Some?)
            && (LastLabel(items, c).Some? ==> g.cells[c] == LastLabel(items, c).value)
            && (LastLabel(items, c).None? && c in f.cells ==> g.cells[c] == f.cells[c])
  {
    ApplyStepsLastWins(f, StepsOf(items), c);
  }

  /** Steps that only write plate cells keep the frame a full 8 x 12 plate. */
  lemma {:induction false} ApplyStepsKeepPlate(f: Frame, steps: seq<Step>)
    requires f.IsPlate() && f.Valid()
    requires ApplySteps(f, steps).Success?
    requires forall i :: 0 <= i < |steps| && steps[i].Write? ==> IsPlateCell(steps[i].cell)
    ensures ApplySteps(f, steps).value.IsPlate() && ApplySteps(f, steps).value.Valid()
  {
    if |steps| > 0 {
      ApplyStepsKeepPlate(f, steps[..|steps| - 1]);
    }
  }

  /** The steps fail exactly when one of them fails, and then with the error
      of the first failing one. */
  lemma ApplyStepsFails(f: Frame, steps: seq<Step>)
    ensures ApplySteps(f, steps).Failure? <==> exists i :: 0 <= i < |steps| && steps[i].Fail?
    ensures ApplySteps(f, steps).Failure? ==>
              exists i :: 0 <= i < |steps| && steps[i] == Fail(ApplySteps(f, steps).error)
                          && forall j :: 0 <= j < i ==> !steps[j].Fail?
  {
    if ApplySteps(f, steps).Failure? {
      var i := ApplyStepsFirstFailure(f, steps);
    }
    if i :| 0 <= i < |steps| && steps[i].Fail? {
      ApplyStepsFailsAt(f, steps, i);
    }
  }

  /** A failure of the walk is the failure of its first failing step. */
  lemma {:induction false} ApplyStepsFirstFailure(f: Frame, steps: seq<Step>) returns (i: nat)
    requires ApplySteps(f, steps).Failure?
    ensures i < |steps| && steps[i] == Fail(ApplySteps(f, steps).error)
    ensures forall j :: 0 <= j < i ==> !steps[j].Fail?
  {
    var n := |steps| - 1;
    var pre := steps[..n];
    if ApplySteps(f, pre).Failure? {
      i := ApplyStepsFirstFailure(f, pre);
      assert forall j :: 0 <= j <= i ==> pre[j] == steps[j];
    } else {
      i := n;
      if exists j :: 0 <= j < n && steps[j].Fail? {
        var j :| 0 <= j < n && steps[j].Fail?;
        assert pre[j].Fail?;
        ApplyStepsFailsAt(f, pre, j);
      }
    }
  }

  /** A failing step makes the whole walk fail. */
  lemma {:induction false} ApplyStepsFailsAt(f: Frame, steps: seq<Step>, i: nat)
    requires i < |steps| && steps[i].Fail?
    ensures ApplySteps(f, steps).Failure?
    decreases |steps|
  {
    var n := |steps| - 1;
    var pre := ApplySteps(f, steps[..n]);
    if i < n {
      assert steps[..n][i] == steps[i];
      ApplyStepsFailsAt(f, steps[..n], i);
    } else if pre.Success? {
      assert Perform(pre.value, steps[n]).Failure?;
    }
  }

  /** Items with at most one ';' never make the writes raise the unpacking
      exception. */
  lemma ApplyWritesNoUnpack(f: Frame, items: seq<string>)
    requires forall x :: x in items ==> Count(x, ';') < 2
    ensures ApplyWrites(f, items) != Failure(UnpackError)
  {
    var steps := StepsOf(items);
    if ApplySteps(f, steps).Failure? {
      var i := ApplyStepsFirstFailure(f, steps);
      assert items[i] in items;
      WriteStepNoUnpack(items[i]);
    }
  }

  /** An item with at most one ';' does not raise the unpacking exception. */
  lemma WriteStepNoUnpack(item: string)
    requires Count(item, ';') < 2
    ensures WriteStep(item) != Fail(UnpackError)
  {
  }

  /** The entries of `set(items)` that hold exactly one ';'. */
  function OneSeparator(items: seq<string>): set<string>
  {
    set x | x in items && Count(x, ';') == 1
  }

  /** The check over `set(replace_pos)`: an exception when some entry holds two
      or more ';'; otherwise whether the collected positions hold a repeat. */
  function ConflictCheck(items: seq<string>): Result<bool, Error>
  {
    if exists x :: x in items && Count(x, ';') >= 2 then Failure(UnpackError)
    else Success(|set x | x in OneSeparator(items) :: PosOf(x)| != |OneSeparator(items)|)
  }

  /** The loop that collects `pos_list` from `set(replace_pos)`, in whatever
      order the set is walked, and compares its length with its set's. */
  method CheckConflicts(items: seq<string>) returns (r: Result<bool, Error>)
    ensures r == ConflictCheck(items)
  {
    var remaining := set x | x in items;
    var posList: seq<string> := [];
    ghost var done: set<string> := {};
    ghost var ones: set<string> := {};
    while remaining != {}
      invariant Collecting(items, remaining, done, ones, posList)
      decreases |remaining|
    {
      var item :| item in remaining;
      var pos := ItemPosition(item);
      match pos {
        case Failure(e) =>
          return Failure(e);
        case Success(None) =>
          CollectingSkip(items, remaining, done, ones, posList, item);
        case Success(Some(p)) =>
          CollectingAdd(items, remaining, done, ones, posList, item);
          ones := ones + {item};
          posList := posList + [p];
      }
      remaining := remaining - {item};
      done := done + {item};
    }
    assert ones == OneSeparator(items);
    r := Success(|posList| != |set p | p in posList|);
  }

  /** What that loop holds: the set of items is split into those still to
      walk and those walked, none walked so far raised, and `pos_list` holds
      one location per walked entry with one ';', with exactly their
      locations as its elements. */
  ghost predicate Collecting(items: seq<string>, remaining: set<string>, done: set<string>,
                             ones: set<string>, posList: seq<string>)
  {
    && remaining + done == (set x | x in items)
    && remaining !! done
    && (forall x :: x in done ==> Count(x, ';') < 2)
    && ones == (set x | x in done && Count(x, ';') == 1)
    && |posList| == |ones|
    && (set p | p in posList) == (set x | x in ones :: PosOf(x))
  }

  /** Walking one more item without ';' keeps the loop's invariant. */
  lemma CollectingSkip(items: seq<string>, remaining: set<string>, done: set<string>,
                       ones: set<string>, posList: seq<string>, item: string)
    requires Collecting(items, remaining, done, ones, posList)
    requires item in remaining && Count(item, ';') == 0
    ensures Collecting(items, remaining - {item}, done + {item}, ones, posList)
  {
    assert (remaining - {item}) + (done + {item}) == remaining + done;
    OnesStep(done, item);
  }

  /** Walking one more item with one ';' and collecting its location keeps
      the loop's invariant. */
  lemma CollectingAdd(items: seq<string>, remaining: set<string>, done: set<string>,
                      ones: set<string>, posList: seq<string>, item: string)
    requires Collecting(items, remaining, done, ones, posList)
    requires item in remaining && Count(item, ';') == 1
    ensures Collecting(items, remaining - {item}, done + {item}, ones + {item}, posList + [PosOf(item)])
  {
    assert (remaining - {item}) + (done + {item}) == remaining + done;
    OnesStep(done, item);
    assert item !in ones;
    CollectStep(posList, ones, item);
  }

  /** Adding an item to those walked adds it to the entries with one ';'
      exactly when it has one. */
  lemma OnesStep(done: set<string>, item: string)
    ensures (set x | x in done + {item} && Count(x, ';') == 1) ==
            (set x | x in done && Count(x, ';') == 1) + (if Count(item, ';') == 1 then {item} else {})
  {
  }

  /** The body of that loop for one item: an item without ';' adds nothing,
      one that splits into more than two parts raises, and otherwise its
      location is collected. */
  method ItemPosition(item: string) returns (r: Result<Option<string>, Error>)
    ensures Count(item, ';') == 0 ==> r == Success(None)
    ensures Count(item, ';') == 1 ==> r == Success(Some(PosOf(item)))
    ensures Count(item, ';') >= 2 ==> r == Failure(UnpackError)
  {
    if ';' in item {
      var parts := Split(item, ';');
      if |parts| != 2 {
        return Failure(UnpackError);
      }
      return Success(Some(parts[1]));
    }
    return Success(None);
  }

  /** Taking locations loses elements exactly when two entries share a location. */
  lemma {:induction false} PositionCount(A: set<string>)
    ensures |set x | x in A :: PosOf(x)| <= |A|
    ensures |set x | x in A :: PosOf(x)| == |A| <==> forall x, y :: x in A && y in A && PosOf(x) == PosOf(y) ==> x == y
    decreases |A|
  {
    if A != {} {
      var x :| x in A;
      var B := A - {x};
      PositionCount(B);
      PositionAdd(B, x, A);
    }
  }

  /** Adding one entry to a set adds its location to the set's locations,
      and keeps locations distinct exactly when they were and the new
      location is not among them. */
  lemma PositionAdd(B: set<string>, x: string, A: set<string>)
    requires x !in B && A == B + {x}
    ensures var imgB := set y | y in B :: PosOf(y);
            && (set y | y in A :: PosOf(y)) == imgB + {PosOf(x)}
            && |A| == |B| + 1
            && ((forall u, v :: u in A && v in A && PosOf(u) == PosOf(v) ==> u == v) <==>
                (forall u, v :: u in B && v in B && PosOf(u) == PosOf(v) ==> u == v) && PosOf(x) !in imgB)
  {
    var imgB := set y | y in B :: PosOf(y);
    assert (set y | y in A :: PosOf(y)) == imgB + {PosOf(x)};
    if PosOf(x) in imgB {
      var y :| y in B && PosOf(y) == PosOf(x);
      assert y != x;
    }
  }

  lemma CollectStep(posList: seq<string>, ones: set<string>, item: string)
    requires |posList| == |ones| && item !in ones
    requires (set p | p in posList) == set x | x in ones :: PosOf(x)
    ensures |posList + [PosOf(item)]| == |ones + {item}|
    ensures (set p | p in posList + [PosOf(item)]) == set x | x in ones + {item} :: PosOf(x)
  {
    assert (set p | p in posList + [PosOf(item)]) == (set p | p in posList) + {PosOf(item)};
    assert (set x | x in ones + {item} :: PosOf(x)) == (set x | x in ones :: PosOf(x)) + {PosOf(item)};
  }

  /** Two distinct entries with one ';' and the same location differ in label. */
  lemma SamePositionDifferentLabel(x: string, y: string)
    requires Count(x, ';') == 1 && Count(y, ';') == 1 && x != y && PosOf(x) == PosOf(y)
    ensures LabelOf(x) != LabelOf(y)
  {
    var px, py := Split(x, ';'), Split(y, ';');
    JoinSplit(x, ';');
    JoinSplit(y, ';');
    assert Join(px, [';']) == px[0] + [';'] + px[1];
    assert Join(py, [';']) == py[0] + [';'] + py[1];
  }

  /** The "different labels" warning fires exactly when two distinct entries
      with one ';' share the location after it (their labels then differ). */
  lemma ConflictWarningIff(items: seq<string>)
    requires ConflictCheck(items).Success?
    ensures ConflictCheck(items).value <==>
              exists x, y :: x in items && y in items && x != y && Count(x, ';') == 1 && Count(y, ';') == 1
                             && PosOf(x) == PosOf(y) && LabelOf(x) != LabelOf(y)
  {
    var A := OneSeparator(items);
    PositionCount(A);
    var img := set x | x in A :: PosOf(x);
    assert ConflictCheck(items).value == (|img| != |A|);
    if |img| != |A| {
      var x, y :| x in A && y in A && PosOf(x) == PosOf(y) && x != y;
      SamePositionDifferentLabel(x, y);
    } else {
      forall x, y | x in items && y in items && x != y && Count(x, ';') == 1 && Count(y, ';') == 1
        ensures PosOf(x) != PosOf(y)
      {
        assert x in A && y in A;
      }
    }
  }

  /** The check compares location text, not wells. Two column spellings with
      the same value (`A7` and `A07`) name the same well, so of two such
      entries with different labels the later silently overwrites the
      earlier, and no "different labels" warning is shown. */
  lemma SameWellHidesConflict(text1: string, text2: string, letter: char, d1: string, d2: string)
    requires ';' !in text1 && ';' !in text2 && text1 != text2 && letter in RowLabels
    requires IsDigits(d1) && IsDigits(d2) && |d1| != |d2|
    requires DigitsValue(d1) == DigitsValue(d2) && 1 <= DigitsValue(d1) <= 12
    ensures WriteStep(text1 + ";" + [letter] + d1) == Write(Cell(letter, ColumnLabels[DigitsValue(d1) - 1]), text1)
    ensures WriteStep(text2 + ";" + [letter] + d2) == Write(Cell(letter, ColumnLabels[DigitsValue(d1) - 1]), text2)
    ensures ConflictCheck([text1 + ";" + [letter] + d1, text2 + ";" + [letter] + d2]) == Success(false)
  {
    DifferentPositions(text1, text2, letter, d1, d2);
    GeneratedWrite(text1, letter, d1);
    GeneratedWrite(text2, letter, d2);
  }

  /** The instance `X;A7` followed by `Y;A07`: both write well A7, no warning. */
  lemma LeadingZeroExample()
    ensures WriteStep("X;A7") == Write(Cell('A', "7"), "X")
    ensures WriteStep("Y;A07") == Write(Cell('A', "7"), "Y")
    ensures ConflictCheck(["X;A7", "Y;A07"]) == Success(false)
  {
    assert "X" + ";" + ['A'] + "7" == "X;A7";
    assert "Y" + ";" + ['A'] + "07" == "Y;A07";
    assert DigitsValue("7") == 7;
    DigitsLeadingZero("7");
    assert "0" + "7" == "07";
    assert ColumnLabels[DigitsValue("7") - 1] == "7";
    SameWellHidesConflict("X", "Y", 'A', "7", "07");
  }

  /** A leading zero changes neither the digits nor their value. */
  lemma {:induction false} DigitsLeadingZero(d: string)
    requires IsDigits(d)
    ensures IsDigits("0" + d) && DigitsValue("0" + d) == DigitsValue(d)
    decreases |d|
  {
    var z := "0" + d;
    assert forall i :: 1 <= i < |z| ==> z[i] == d[i - 1];
    if |d| == 1 {
      assert z[..1] == "0";
    } else {
      var front := d[..|d| - 1];
      DigitsLeadingZero(front);
      assert z[..|z| - 1] == "0" + front;
      assert z[|z| - 1] == d[|d| - 1];
    }
  }

  /** Two generated entries whose column digits differ in length have one
      ';' each and different location text, so the check finds no conflict. */
  lemma DifferentPositions(text1: string, text2: string, letter: char, d1: string, d2: string)
    requires ';' !in text1 && ';' !in text2 && letter != ';' && IsDigits(d1) && IsDigits(d2) && |d1| != |d2|
    ensures ConflictCheck([text1 + ";" + [letter] + d1, text2 + ";" + [letter] + d2]) == Success(false)
  {
    var e1, e2 := text1 + ";" + [letter] + d1, text2 + ";" + [letter] + d2;
    GeneratedEntry(text1, letter, d1);
    GeneratedEntry(text2, letter, d2);
    var items := [e1, e2];
    assert |PosOf(e1)| != |PosOf(e2)|;
    assert ConflictCheck(items).Success?;
    ConflictWarningIff(items);
  }

  /** `len(s) != len(set(s))` exactly when some entry occurs twice. */
  lemma {:induction false} RepeatIff(s: seq<string>)
    ensures |set x | x in s| <= |s|
    ensures |set x | x in s| != |s| <==> exists i, j :: 0 <= i < j < |s| && s[i] == s[j]
  {
    if |s| > 0 {
      var n := |s| - 1;
      var front := s[..n];
      RepeatIff(front);
      RepeatLast(s, front);
      var prefix := set x | x in front;
      assert (set x | x in s) == prefix + {s[n]};
      if s[n] in front {
        assert prefix + {s[n]} == prefix;
      } else {
        assert |prefix + {s[n]}| == |prefix| + 1;
      }
    }
  }

  /** A sequence repeats an entry exactly when its front does or its last
      entry occurs in its front. */
  lemma RepeatLast(s: seq<string>, front: seq<string>)
    requires |s| > 0 && front == s[..|s| - 1]
    ensures (exists i, j :: 0 <= i < j < |s| && s[i] == s[j]) <==>
            (exists i, j :: 0 <= i < j < |front| && front[i] == front[j]) || s[|s| - 1] in front
  {
    var n := |s| - 1;
    if exists i, j :: 0 <= i < j < |s| && s[i] == s[j] {
      var i, j :| 0 <= i < j < |s| && s[i] == s[j];
      if j == n {
        assert front[i] == s[n];
      } else {
        assert front[i] == front[j];
      }
    }
    if exists i, j :: 0 <= i < j < |front| && front[i] == front[j] {
      var i, j :| 0 <= i < j < |front| && front[i] == front[j];
      assert s[i] == s[j];
    }
    if s[n] in s[..n] {
      var i :| 0 <= i < n && s[..n][i] == s[n];
      assert s[i] == s[n];
    }
  }
}
