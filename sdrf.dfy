/** The column lists of the SDRF tab of web.py, and the Skyline annotation
    columns read back from an SDRF table. */
module Sdrf {
  import opened Wrappers
  import opened Text
  import opened Lists

  /** The columns of the annotated long plate table, in order. */
  const LongTableColumns: seq<string> := [
    "Row", "Column", "Sample", "Source Vial", "Position", "Inj Vol",
    "Instrument Method", "Path", "File Name"]

  /** The sample attributes added to it for the SDRF table, in order. */
  const SampleAttributes: seq<string> := [
    "organism", "organism part", "plate", "project", "age", "developmental stage",
    "sex", "ancestry category", "cell type", "cell line", "disease", "individual",
    "biological replicate"]

  /** `sample_prop_columns`: the columns that become characteristics, and the
      choices for the factor value. */
  const SamplePropColumns: seq<string> := LongTableColumns + SampleAttributes

  /** The data-file columns before the enzymes are added, in order. */
  const DataFileBase: seq<string> := [
    "data file", "file uri", "proteomics data acquisition method", "label",
    "fraction identifier", "fractionation method", "technical replicate",
    "ms2 mass analyzer", "instrument", "modification parameters",
    "dissociation method", "collision energy", "precursor mass tolerance",
    "fragment mass tolerance"]

  const TechnicalReplicate: string := "technical replicate"
  const CleavagePrefix: string := "cleavage agent details"

  function Characteristic(c: string): string
  {
    "characteristics[" + c + "]"
  }

  function Comment(c: string): string
  {
    "comment[" + c + "]"
  }

  function FactorValue(c: string): string
  {
    "factor value[" + c + "]"
  }

  function Characteristics(cols: seq<string>): (r: seq<string>)
    ensures |r| == |cols| && forall i :: 0 <= i < |cols| ==> r[i] == Characteristic(cols[i])
  {
    seq(|cols|, i requires 0 <= i < |cols| => Characteristic(cols[i]))
  }

  function Comments(cols: seq<string>): (r: seq<string>)
    ensures |r| == |cols| && forall i :: 0 <= i < |cols| ==> r[i] == Comment(cols[i])
  {
    seq(|cols|, i requires 0 <= i < |cols| => Comment(cols[i]))
  }

  /** The name of the column of enzyme i. */
  function CleavageName(i: nat): string
  {
    CleavagePrefix + NatToDecimal(i)
  }

  /** The enzyme columns, one per enzyme, numbered from 0. */
  function CleavageNames(enzymes: nat): (r: seq<string>)
    ensures |r| == enzymes && forall i :: 0 <= i < enzymes ==> r[i] == CleavageName(i)
  {
    seq(enzymes, i requires 0 <= i < enzymes => CleavageName(i))
  }

  /** The data-file columns with one enzyme column appended per enzyme, the
      loop of the SDRF tab. */
  method AddEnzymeColumns(enzymes: nat) returns (cols: seq<string>)
    ensures cols == DataFileBase + CleavageNames(enzymes)
  {
    cols := DataFileBase;
    var i := 0;
    while i < enzymes
      invariant 0 <= i <= enzymes
      invariant cols == DataFileBase + CleavageNames(i)
    {
      cols := cols + [CleavagePrefix + NatToDecimal(i)];
      i := i + 1;
      assert CleavageNames(i) == CleavageNames(i - 1) + [CleavageName(i - 1)];
    }
  }

  /** The enzyme columns have distinct names, none of them a base column. */
  lemma EnzymeColumnsDistinct(enzymes: nat)
    ensures forall i, j :: 0 <= i < j < enzymes ==> CleavageName(i) != CleavageName(j)
    ensures forall i :: 0 <= i < enzymes ==> CleavageName(i) !in DataFileBase
  {
    forall i, j | 0 <= i < j < enzymes
      ensures CleavageName(i) != CleavageName(j)
    {
      var a, b := NatToDecimal(i), NatToDecimal(j);
      assert DigitsValue(a) != DigitsValue(b);
      assert CleavageName(i)[|CleavagePrefix|..] == a && CleavageName(j)[|CleavagePrefix|..] == b;
    }
    forall i | 0 <= i < enzymes
      ensures CleavageName(i) !in DataFileBase
    {
      CleavageNameIsCleavage(i);
      BaseIsNotCleavage();
    }
  }

  predicate IsCleavage(c: string)
  {
    StartsWith(c, CleavagePrefix)
  }

  lemma CleavageNameIsCleavage(i: nat)
    ensures IsCleavage(CleavageName(i))
  {
    assert CleavageName(i)[..|CleavagePrefix|] == CleavagePrefix;
  }

  lemma BaseIsNotCleavage()
    ensures forall c :: c in DataFileBase ==> !IsCleavage(c)
  {
    assert !IsCleavage("data file") && !IsCleavage("file uri") && !IsCleavage("label");
    assert !IsCleavage("proteomics data acquisition method") by { assert "proteomics data acquisition method"[0] == 'p'; }
    assert !IsCleavage("fraction identifier") && !IsCleavage("fractionation method");
    assert !IsCleavage("technical replicate") && !IsCleavage("ms2 mass analyzer") && !IsCleavage("instrument");
    assert !IsCleavage("modification parameters") by { assert "modification parameters"[0] == 'm'; }
    assert !IsCleavage("dissociation method") && !IsCleavage("collision energy");
    assert !IsCleavage("precursor mass tolerance") by { assert "precursor mass tolerance"[0] == 'p'; }
    assert !IsCleavage("fragment mass tolerance") by { assert "fragment mass tolerance"[..22][0] == 'f'; }
  }

  /** The enzyme columns, in their order. */
  function CleavageCols(cols: seq<string>): (r: seq<string>)
    ensures |r| <= |cols|
  {
    if |cols| == 0 then []
    else (if IsCleavage(cols[0]) then [cols[0]] else []) + CleavageCols(cols[1..])
  }

  /** The other columns, in their order. */
  function OtherCols(cols: seq<string>): (r: seq<string>)
    ensures |r| <= |cols|
  {
    if |cols| == 0 then []
    else (if IsCleavage(cols[0]) then [] else [cols[0]]) + OtherCols(cols[1..])
  }

  lemma {:induction false} CleavageColsAppend(a: seq<string>, b: seq<string>)
    ensures CleavageCols(a + b) == CleavageCols(a) + CleavageCols(b)
    decreases |a|
  {
    if |a| == 0 {
      assert a + b == b;
    } else {
      var head := if IsCleavage(a[0]) then [a[0]] else [];
      assert (a + b)[0] == a[0] && (a + b)[1..] == a[1..] + b;
      assert CleavageCols(a + b) == head + CleavageCols(a[1..] + b);
      CleavageColsAppend(a[1..], b);
      assert CleavageCols(a) == head + CleavageCols(a[1..]);
      assert head + (CleavageCols(a[1..]) + CleavageCols(b)) == (head + CleavageCols(a[1..])) + CleavageCols(b);
    }
  }

  lemma {:induction false} OtherColsAppend(a: seq<string>, b: seq<string>)
    ensures OtherCols(a + b) == OtherCols(a) + OtherCols(b)
    decreases |a|
  {
    if |a| == 0 {
      assert a + b == b;
    } else {
      var head := if IsCleavage(a[0]) then [] else [a[0]];
      assert (a + b)[0] == a[0] && (a + b)[1..] == a[1..] + b;
      assert OtherCols(a + b) == head + OtherCols(a[1..] + b);
      OtherColsAppend(a[1..], b);
      assert OtherCols(a) == head + OtherCols(a[1..]);
      assert head + (OtherCols(a[1..]) + OtherCols(b)) == (head + OtherCols(a[1..])) + OtherCols(b);
    }
  }

  /** What each filter keeps: the enzyme columns, and the others. */
  lemma {:induction false} FilterMembers(cols: seq<string>)
    ensures forall c :: c in CleavageCols(cols) <==> c in cols && IsCleavage(c)
    ensures forall c :: c in OtherCols(cols) <==> c in cols && !IsCleavage(c)
  {
    if |cols| > 0 {
      FilterMembers(cols[1..]);
      assert cols == [cols[0]] + cols[1..];
    }
  }

  /** The two filters split the columns: together they hold every column as
      often as it occurs. */
  lemma {:induction false} FiltersSplit(cols: seq<string>)
    ensures multiset(CleavageCols(cols)) + multiset(OtherCols(cols)) == multiset(cols)
  {
    if |cols| > 0 {
      var c, t := cols[0], cols[1..];
      FiltersSplit(t);
      assert cols == [c] + t;
      assert multiset(cols) == multiset{c} + multiset(t);
      if IsCleavage(c) {
        assert CleavageCols(cols) == [c] + CleavageCols(t) && OtherCols(cols) == OtherCols(t);
      } else {
        assert CleavageCols(cols) == CleavageCols(t) && OtherCols(cols) == [c] + OtherCols(t);
      }
    }
  }

  /** Columns that are all enzyme columns pass the first filter whole. */
  lemma {:induction false} AllCleavage(cols: seq<string>)
    requires forall c :: c in cols ==> IsCleavage(c)
    ensures CleavageCols(cols) == cols && OtherCols(cols) == []
  {
    if |cols| > 0 {
      assert forall c :: c in cols[1..] ==> c in cols;
      AllCleavage(cols[1..]);
      assert cols == [cols[0]] + cols[1..] && IsCleavage(cols[0]);
      assert CleavageCols(cols) == [cols[0]] + CleavageCols(cols[1..]);
      assert OtherCols(cols) == [] + OtherCols(cols[1..]);
    }
  }

  /** Columns that hold no enzyme column pass the second filter whole. */
  lemma {:induction false} NoCleavage(cols: seq<string>)
    requires forall c :: c in cols ==> !IsCleavage(c)
    ensures OtherCols(cols) == cols && CleavageCols(cols) == []
  {
    if |cols| > 0 {
      assert forall c :: c in cols[1..] ==> c in cols;
      NoCleavage(cols[1..]);
      assert cols == [cols[0]] + cols[1..] && !IsCleavage(cols[0]);
      assert OtherCols(cols) == [cols[0]] + OtherCols(cols[1..]);
      assert CleavageCols(cols) == [] + CleavageCols(cols[1..]);
    }
  }

  /** `list.index`: the first position of `x`. */
  function IndexOf(s: seq<string>, x: string): (i: nat)
    requires x in s
    ensures i < |s| && s[i] == x && x !in s[..i]
  {
    if s[0] == x then 0
    else
      var i := IndexOf(s[1..], x) + 1;
      assert s[..i] == [s[0]] + s[1..][..i - 1];
      i
  }

  /** Where the enzyme columns go: after "technical replicate", or after
      the seventh other column when there is none (clamped to the end). */
  function CleavageCut(others: seq<string>): (cut: nat)
    ensures cut <= |others|
  {
    var t := if TechnicalReplicate in others then IndexOf(others, TechnicalReplicate) else 6;
    if t + 1 <= |others| then t + 1 else |others|
  }

  /** The reorder of the SDRF tab: the other columns up to "technical
      replicate", the enzyme columns, then the remaining other columns. */
  function ReorderCleavage(cols: seq<string>): seq<string>
  {
    var others := OtherCols(cols);
    var cut := CleavageCut(others);
    others[..cut] + CleavageCols(cols) + others[cut..]
  }

  /** The reorder only moves columns: it keeps each column as often as it
      occurs. */
  lemma ReorderKeepsColumns(cols: seq<string>)
    ensures multiset(ReorderCleavage(cols)) == multiset(cols)
  {
    var others := OtherCols(cols);
    var cut := CleavageCut(others);
    var cl := CleavageCols(cols);
    FiltersSplit(cols);
    assert ReorderCleavage(cols) == others[..cut] + cl + others[cut..];
    InsertAt(others, cut, cl);
  }

  /** The reorder keeps the order of the enzyme columns and the order of the
      others. */
  lemma ReorderKeepsOrder(cols: seq<string>)
    ensures CleavageCols(ReorderCleavage(cols)) == CleavageCols(cols)
    ensures OtherCols(ReorderCleavage(cols)) == OtherCols(cols)
  {
    var others := OtherCols(cols);
    var cl := CleavageCols(cols);
    var cut := CleavageCut(others);
    assert ReorderCleavage(cols) == others[..cut] + cl + others[cut..];
    FilterMembers(cols);
    SplitOthers(others, cut);
    AllCleavage(cl);
    CleavageAfterInsert(others[..cut], cl, others[cut..]);
    OthersAfterInsert(others[..cut], cl, others[cut..]);
  }

  /** Enzyme columns put between two runs of other columns are all the
      first filter keeps. */
  lemma CleavageAfterInsert(a: seq<string>, cl: seq<string>, b: seq<string>)
    requires CleavageCols(a) == [] && CleavageCols(b) == [] && CleavageCols(cl) == cl
    ensures CleavageCols(a + cl + b) == cl
  {
    calc {
      CleavageCols(a + cl + b);
    == { CleavageColsAppend(a + cl, b); }
      CleavageCols(a + cl) + CleavageCols(b);
    == { CleavageColsAppend(a, cl); }
      CleavageCols(a) + CleavageCols(cl) + CleavageCols(b);
    ==
      [] + cl + [];
    == { assert [] + cl == cl; }
      cl;
    }
  }

  /** The second filter drops enzyme columns put between two runs of other
      columns. */
  lemma OthersAfterInsert(a: seq<string>, cl: seq<string>, b: seq<string>)
    requires OtherCols(a) == a && OtherCols(b) == b && OtherCols(cl) == []
    ensures OtherCols(a + cl + b) == a + b
  {
    calc {
      OtherCols(a + cl + b);
    == { OtherColsAppend(a + cl, b); }
      OtherCols(a + cl) + OtherCols(b);
    == { OtherColsAppend(a, cl); }
      OtherCols(a) + OtherCols(cl) + OtherCols(b);
    ==
      a + [] + b;
    == { assert a + [] == a; }
      a + b;
    }
  }

  /** Both sides of a cut of the other columns hold no enzyme column. */
  lemma SplitOthers(others: seq<string>, cut: nat)
    requires cut <= |others| && forall c :: c in others ==> !IsCleavage(c)
    ensures others == others[..cut] + others[cut..]
    ensures OtherCols(others[..cut]) == others[..cut] && CleavageCols(others[..cut]) == []
    ensures OtherCols(others[cut..]) == others[cut..] && CleavageCols(others[cut..]) == []
  {
    assert others == others[..cut] + others[cut..];
    assert forall c :: c in others[..cut] ==> c in others;
    assert forall c :: c in others[cut..] ==> c in others;
    NoCleavage(others[..cut]);
    NoCleavage(others[cut..]);
  }

  /** With a "technical replicate" column, the enzyme columns come right
      after it. */
  lemma ReorderAfterTechnicalReplicate(cols: seq<string>)
    requires TechnicalReplicate in cols
    ensures TechnicalReplicate in OtherCols(cols)
    ensures var r := ReorderCleavage(cols);
            var t := IndexOf(OtherCols(cols), TechnicalReplicate);
            var cl := CleavageCols(cols);
            && t + 1 + |cl| <= |r|
            && r[t] == TechnicalReplicate
            && r[t + 1..t + 1 + |cl|] == cl
  {
    assert !IsCleavage(TechnicalReplicate);
    FilterMembers(cols);
  }

  lemma TechnicalReplicateAtSix()
    ensures TechnicalReplicate in DataFileBase && IndexOf(DataFileBase, TechnicalReplicate) == 6
  {
    assert DataFileBase[6] == TechnicalReplicate;
    assert TechnicalReplicate !in DataFileBase[..6];
  }

  /** For the data-file columns of the SDRF tab, the enzyme columns land
      between "technical replicate" and "ms2 mass analyzer". */
  lemma DataFileColumnOrder(enzymes: nat)
    ensures ReorderCleavage(DataFileBase + CleavageNames(enzymes))
            == DataFileBase[..7] + CleavageNames(enzymes) + DataFileBase[7..]
  {
    var names := CleavageNames(enzymes);
    CleavageColsAppend(DataFileBase, names);
    OtherColsAppend(DataFileBase, names);
    BaseIsNotCleavage();
    NoCleavage(DataFileBase);
    forall c | c in names
      ensures IsCleavage(c)
    {
      var i :| 0 <= i < enzymes && names[i] == c;
      CleavageNameIsCleavage(i);
    }
    AllCleavage(names);
    TechnicalReplicateAtSix();
    assert OtherCols(DataFileBase + names) == DataFileBase;
    assert CleavageCols(DataFileBase + names) == names;
  }

  /** The extra data-file columns of an acquisition technique. */
  function AcquisitionColumns(acqTech: string): seq<string>
  {
    (if acqTech == "DIA" then ["MS1 scan range", "MS2 scan range"] else [])
    + (if acqTech == "SRM" || acqTech == "PRM" then ["ProteomeEdge"] else [])
  }

  /** Why the SDRF table cannot be built. */
  datatype SdrfError = MissingColumn(name: string)

  /** The columns of the SDRF table: the source name, the characteristics,
      material type, assay name and technology type, the data-file comments,
      and the factor value, which copies a characteristics column and fails
      when there is none of that name. */
  function SdrfColumns(acqTech: string, enzymes: nat, factor: string): Result<seq<string>, SdrfError>
  {
    var sample := ["source name"] + Characteristics(SamplePropColumns)
                  + ["Material type", "assay name", "technology type"];
    var dataFile := Comments(ReorderCleavage(DataFileBase + CleavageNames(enzymes)) + AcquisitionColumns(acqTech));
    if Characteristic(factor) !in sample + dataFile then Failure(MissingColumn(Characteristic(factor)))
    else Success(sample + dataFile + [FactorValue(factor)])
  }

  /** The layout of the SDRF header: the characteristics in the order of the
      sample properties, the data-file comments with the enzyme columns
      right after "technical replicate", and the factor value last. */
  lemma SdrfLayout(acqTech: string, enzymes: nat, factor: string)
    requires SdrfColumns(acqTech, enzymes, factor).Success?
    ensures var r := SdrfColumns(acqTech, enzymes, factor).value;
            var dataFile := DataFileBase[..7] + CleavageNames(enzymes) + DataFileBase[7..] + AcquisitionColumns(acqTech);
            && |r| == 27 + |dataFile|
            && r[0] == "source name"
            && r[1..23] == Characteristics(SamplePropColumns)
            && r[23..26] == ["Material type", "assay name", "technology type"]
            && r[26..|r| - 1] == Comments(dataFile)
            && r[|r| - 1] == FactorValue(factor)
  {
    DataFileColumnOrder(enzymes);
    var sample := ["source name"] + Characteristics(SamplePropColumns)
                  + ["Material type", "assay name", "technology type"];
    var dataFile := Comments(ReorderCleavage(DataFileBase + CleavageNames(enzymes)) + AcquisitionColumns(acqTech));
    var r := SdrfColumns(acqTech, enzymes, factor).value;
    assert r == sample + dataFile + [FactorValue(factor)];
    assert r[26..|r| - 1] == dataFile;
  }

  /** The assay names "run 1", "run 2", ..., one per sample row. */
  function AssayNames(n: nat): (r: seq<string>)
    ensures |r| == n
  {
    seq(n, i requires 0 <= i < n => "run " + NatToDecimal(i + 1))
  }

  /** Assay names are distinct, and the number after "run " is the row's
      place counted from one. */
  lemma AssayNamesDistinct(n: nat)
    ensures forall i :: 0 <= i < n ==> |AssayNames(n)[i]| > 4 && DigitsValue(AssayNames(n)[i][4..]) == i + 1
    ensures forall i, j :: 0 <= i < j < n ==> AssayNames(n)[i] != AssayNames(n)[j]
  {
    var r := AssayNames(n);
    forall i | 0 <= i < n
      ensures |r[i]| > 4 && DigitsValue(r[i][4..]) == i + 1
    {
      assert r[i][4..] == NatToDecimal(i + 1);
    }
    forall i, j | 0 <= i < j < n
      ensures r[i] != r[j]
    {
      assert r[i][4..] == NatToDecimal(i + 1) && r[j][4..] == NatToDecimal(j + 1);
    }
  }

  /** Any sample property can be the factor value; nothing else can. */
  lemma SdrfFactorChoices(acqTech: string, enzymes: nat, factor: string)
    ensures SdrfColumns(acqTech, enzymes, factor).Success? <==> factor in SamplePropColumns
  {
    var sample := ["source name"] + Characteristics(SamplePropColumns)
                  + ["Material type", "assay name", "technology type"];
    var dataFile := Comments(ReorderCleavage(DataFileBase + CleavageNames(enzymes)) + AcquisitionColumns(acqTech));
    if factor in SamplePropColumns {
      var i :| 0 <= i < |SamplePropColumns| && SamplePropColumns[i] == factor;
      assert sample[i + 1] == Characteristic(factor);
    } else {
      var all := sample + dataFile;
      var ch := Characteristic(factor);
      assert ch[0] == 'c' && ch[1] == 'h';
      forall k | 0 <= k < |all|
        ensures all[k] != ch
      {
        if k == 0 {
          assert all[k][0] == 's';
        } else if k < 23 {
          assert all[k] == Characteristic(SamplePropColumns[k - 1]);
          CharacteristicInjective(factor);
        } else if k < 26 {
          assert all[k][0] != 'c';
        } else {
          assert all[k] == Comment((ReorderCleavage(DataFileBase + CleavageNames(enzymes)) + AcquisitionColumns(acqTech))[k - 26]);
          assert all[k][1] == 'o';
        }
      }
    }
  }

  lemma CharacteristicInjective(c: string)
    ensures forall d :: Characteristic(d) == Characteristic(c) ==> d == c
  {
    forall d | Characteristic(d) == Characteristic(c)
      ensures d == c
    {
      assert d == Characteristic(d)[16..|Characteristic(d)| - 1];
    }
  }

  /** The Skyline name of a characteristics column: the prefix and every
      closing bracket removed. */
  function SkylineName(c: string): string
  {
    Replace(Replace(c, "characteristics[", ""), "]", "")
  }

  /** The Skyline annotation columns: the characteristics columns of an
      SDRF table, renamed. */
  function SkylineColumns(cols: seq<string>): (r: seq<string>)
    ensures |r| <= |cols|
  {
    if |cols| == 0 then []
    else
      (if StartsWith(cols[0], "characteristics[") then [SkylineName(cols[0])] else [])
      + SkylineColumns(cols[1..])
  }

  predicate BracketFree(c: string)
  {
    forall i :: 0 <= i < |c| ==> c[i] != '[' && c[i] != ']'
  }

  /** Renaming undoes the characteristics prefix of a name without brackets. */
  lemma SkylineNameInverse(c: string)
    requires BracketFree(c)
    ensures SkylineName(Characteristic(c)) == c
  {
    var p := "characteristics[";
    var closed := c + "]";
    assert Characteristic(c) == p + closed;
    ReplacePrefix(p, closed, "");
    assert '[' !in closed;
    ReplaceMissingChar(closed, p, "", '[');
    var s1 := Replace(Characteristic(c), p, "");
    assert s1 == closed;
    assert "]" == [']'];
    ReplaceCharAppend(c, "]", ']', "");
    ReplaceAbsentChar(c, ']', "");
    assert Replace("]", "]", "") == "" + Replace("", "]", "");
    assert SkylineName(Characteristic(c)) == Replace(s1, "]", "");
  }

  lemma SamplePropColumnsBracketFree()
    ensures forall c :: c in SamplePropColumns ==> BracketFree(c)
  {
    LongTableColumnsBracketFree();
    SampleAttributesBracketFree();
  }

  lemma LongTableColumnsBracketFree()
    ensures forall c :: c in LongTableColumns ==> BracketFree(c)
  {
    assert BracketFree("Row") && BracketFree("Column") && BracketFree("Sample");
    assert BracketFree("Source Vial") && BracketFree("Position") && BracketFree("Inj Vol");
    assert BracketFree("Instrument Method") && BracketFree("Path") && BracketFree("File Name");
  }

  lemma SampleAttributesBracketFree()
    ensures forall c :: c in SampleAttributes ==> BracketFree(c)
  {
    assert BracketFree("organism") && BracketFree("organism part") && BracketFree("plate");
    assert BracketFree("project") && BracketFree("age") && BracketFree("developmental stage");
    assert BracketFree("sex") && BracketFree("ancestry category") && BracketFree("cell type");
    assert BracketFree("cell line") && BracketFree("disease") && BracketFree("individual");
    assert BracketFree("biological replicate");
  }

  lemma {:induction false} SkylineColumnsAppend(a: seq<string>, b: seq<string>)
    ensures SkylineColumns(a + b) == SkylineColumns(a) + SkylineColumns(b)
  {
    if |a| == 0 {
      assert a + b == b;
    } else {
      var head := if StartsWith(a[0], "characteristics[") then [SkylineName(a[0])] else [];
      assert (a + b)[0] == a[0] && (a + b)[1..] == a[1..] + b;
      assert SkylineColumns(a + b) == head + SkylineColumns(a[1..] + b);
      SkylineColumnsAppend(a[1..], b);
      assert SkylineColumns(a) == head + SkylineColumns(a[1..]);
      assert head + (SkylineColumns(a[1..]) + SkylineColumns(b)) == (head + SkylineColumns(a[1..])) + SkylineColumns(b);
    }
  }

  lemma {:induction false} SkylineOfCharacteristics(cols: seq<string>)
    requires forall c :: c in cols ==> BracketFree(c)
    ensures SkylineColumns(Characteristics(cols)) == cols
  {
    if |cols| > 0 {
      var ch := Characteristics(cols);
      assert ch[1..] == Characteristics(cols[1..]);
      assert forall c :: c in cols[1..] ==> c in cols;
      SkylineOfCharacteristics(cols[1..]);
      assert StartsWith(ch[0], "characteristics[") by {
        assert ch[0][..16] == "characteristics[";
      }
      SkylineNameInverse(cols[0]);
      assert ch[0] == Characteristic(cols[0]);
      assert SkylineColumns(ch) == [SkylineName(ch[0])] + SkylineColumns(ch[1..]);
      assert cols == [cols[0]] + cols[1..];
    }
  }

  lemma {:induction false} SkylineOfComments(cols: seq<string>)
    ensures SkylineColumns(Comments(cols)) == []
  {
    if |cols| > 0 {
      var cm := Comments(cols);
      assert cm[1..] == Comments(cols[1..]);
      SkylineOfComments(cols[1..]);
      assert cm[0][1] == 'o';
    }
  }

  /** The Skyline annotation columns of an SDRF table are exactly the
      sample properties, in their order. */
  lemma SkylineRecoversSampleProperties(acqTech: string, enzymes: nat, factor: string)
    requires SdrfColumns(acqTech, enzymes, factor).Success?
    ensures SkylineColumns(SdrfColumns(acqTech, enzymes, factor).value) == SamplePropColumns
  {
    var head := ["source name"];
    var ch := Characteristics(SamplePropColumns);
    var mid := ["Material type", "assay name", "technology type"];
    var dataFile := Comments(ReorderCleavage(DataFileBase + CleavageNames(enzymes)) + AcquisitionColumns(acqTech));
    var tail := [FactorValue(factor)];
    assert SdrfColumns(acqTech, enzymes, factor).value == head + ch + mid + dataFile + tail;
    SkylineColumnsAppend(head + ch + mid + dataFile, tail);
    SkylineColumnsAppend(head + ch + mid, dataFile);
    SkylineColumnsAppend(head + ch, mid);
    SkylineColumnsAppend(head, ch);
    SamplePropColumnsBracketFree();
    SkylineOfCharacteristics(SamplePropColumns);
    SkylineOfComments(ReorderCleavage(DataFileBase + CleavageNames(enzymes)) + AcquisitionColumns(acqTech));
    assert SkylineColumns(head) == [];
    assert SkylineColumns(mid) == [] by {
      assert mid[1..] == ["assay name", "technology type"];
      assert mid[1..][1..] == ["technology type"];
    }
    assert SkylineColumns(tail) == [] by {
      var f := FactorValue(factor);
      assert f[0] == 'f';
      assert !StartsWith(f, "characteristics[") by {
        if |f| >= 16 { assert f[..16][0] == 'f'; }
      }
      assert tail[1..] == [];
    }
  }
}
