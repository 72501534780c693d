/** The helpers at the top of web.py: the byte-order mark, the file and
    download names, the chunking with a wash block after every chunk, and
    the XML-safe column names. */
module WebHelpers {
  import opened Wrappers
  import opened Text

  /** The byte-order mark U+FEFF. */
  const Bom: char := '\U{FEFF}'

  /** `_ensure_bom`: the text with a byte-order mark in front, added only
      when it is not already there. */
  function EnsureBom(text: string): (r: string)
    ensures |r| > 0 && r[0] == Bom
    ensures r == text <==> |text| > 0 && text[0] == Bom
    ensures r != text ==> r[1..] == text
  {
    if StartsWith(text, [Bom]) then text else [Bom] + text
  }

  /** Adding the mark twice is adding it once. */
  lemma EnsureBomIdempotent(text: string)
    ensures EnsureBom(EnsureBom(text)) == EnsureBom(text)
  {
    var r := EnsureBom(text);
    assert StartsWith(r, [Bom]) by { assert r[..1] == [Bom]; }
  }

  /** `_build_file_name`: acquisition technique, injection date, project,
      plate and well position, joined with '_'. */
  function BuildFileName(acqTech: string, date: string, projName: string, plateId: string, position: string): string
  {
    Join([acqTech, date, projName, plateId, position], "_")
  }

  /** When no part holds '_', splitting a file name at '_' gives its five
      parts back. */
  lemma FileNameParts(acqTech: string, date: string, projName: string, plateId: string, position: string)
    requires '_' !in acqTech && '_' !in date && '_' !in projName && '_' !in plateId && '_' !in position
    ensures Split(BuildFileName(acqTech, date, projName, plateId, position), '_')
            == [acqTech, date, projName, plateId, position]
  {
    var parts := [acqTech, date, projName, plateId, position];
    SplitJoin(parts, '_');
  }

  /** `_build_download_name`: the parts joined with '_', then the suffix. */
  function BuildDownloadName(parts: seq<string>, suffix: string): string
  {
    Join(parts, "_") + suffix
  }

  /** A download name ends with its suffix, and what comes before the suffix
      splits back into the parts when none of them holds '_'. */
  lemma DownloadNameParts(parts: seq<string>, suffix: string)
    requires |parts| > 0 && forall i :: 0 <= i < |parts| ==> '_' !in parts[i]
    ensures var name := BuildDownloadName(parts, suffix);
            && |suffix| <= |name| && name[|name| - |suffix|..] == suffix
            && Split(name[..|name| - |suffix|], '_') == parts
  {
    var name := BuildDownloadName(parts, suffix);
    assert name[..|name| - |suffix|] == Join(parts, "_");
    SplitJoin(parts, '_');
  }

  /** The concatenation of a list of blocks (`pd.concat`). */
  function Concat<T>(blocks: seq<seq<T>>): seq<T>
  {
    if |blocks| == 0 then [] else blocks[0] + Concat(blocks[1..])
  }

  /** `_chunk_df`: the rows cut into consecutive blocks of `size` rows, the
      last one possibly shorter. */
  function Chunks<T>(s: seq<T>, size: nat): seq<seq<T>>
    requires size > 0
    decreases |s|
  {
    if |s| == 0 then []
    else if |s| <= size then [s]
    else [s[..size]] + Chunks(s[size..], size)
  }

  /** The number of chunks: one per started block of `size` rows. */
  function NumChunks(n: nat, size: nat): (k: nat)
    requires size > 0
    ensures n == 0 <==> k == 0
    ensures n > 0 ==> (k - 1) * size < n <= k * size
  {
    if n == 0 then 0
    else if n <= size then 1
    else
      var k := NumChunks(n - size, size);
      assert (k + 1) * size == k * size + size;
      k + 1
  }

  /** Chunking: the chunks put back together give the input, there are
      ceil(n / size) of them (see NumChunks), each full except possibly the last, and the
      last is not empty. */
  lemma ChunksProperties<T>(s: seq<T>, size: nat)
    requires size > 0
    ensures Concat(Chunks(s, size)) == s
    ensures |Chunks(s, size)| == NumChunks(|s|, size)
    ensures forall i :: 0 <= i < |Chunks(s, size)| - 1 ==> |Chunks(s, size)[i]| == size
    ensures |Chunks(s, size)| > 0 ==> 0 < |Chunks(s, size)[|Chunks(s, size)| - 1]| <= size
  {
    ChunksConcat(s, size);
    ChunksCount(s, size);
    ChunksSizes(s, size);
  }

  lemma {:induction false} ChunksConcat<T>(s: seq<T>, size: nat)
    requires size > 0
    ensures Concat(Chunks(s, size)) == s
    decreases |s|
  {
    var cs := Chunks(s, size);
    if |s| == 0 {
    } else if |s| <= size {
      assert Concat(cs) == s + Concat([]);
    } else {
      ChunksConcat(s[size..], size);
      assert cs[1..] == Chunks(s[size..], size);
      assert Concat(cs) == s[..size] + s[size..];
    }
  }

  lemma {:induction false} ChunksCount<T>(s: seq<T>, size: nat)
    requires size > 0
    ensures |Chunks(s, size)| == NumChunks(|s|, size)
    decreases |s|
  {
    if |s| > size {
      ChunksCount(s[size..], size);
    }
  }

  lemma {:induction false} ChunksSizes<T>(s: seq<T>, size: nat)
    requires size > 0
    ensures forall i :: 0 <= i < |Chunks(s, size)| - 1 ==> |Chunks(s, size)[i]| == size
    ensures |Chunks(s, size)| > 0 ==> 0 < |Chunks(s, size)[|Chunks(s, size)| - 1]| <= size
    decreases |s|
  {
    if |s| > size {
      var cs := Chunks(s, size);
      var rest := Chunks(s[size..], size);
      ChunksSizes(s[size..], size);
      assert cs == [s[..size]] + rest;
      forall i | 1 <= i < |cs|
        ensures cs[i] == rest[i - 1]
      {
      }
    }
  }

  /** Each chunk followed by the wash block. */
  function ChunksWithWash<T>(chunks: seq<seq<T>>, wash: seq<T>): (r: seq<seq<T>>)
    ensures |r| == |chunks| && forall i :: 0 <= i < |r| ==> r[i] == chunks[i] + wash
  {
    seq(|chunks|, i requires 0 <= i < |chunks| => chunks[i] + wash)
  }

  /** Why a step of the assembly can raise. */
  datatype Fault =
    | NothingToConcatenate  // `pd.concat([])`
    | IndexError            // `iloc` outside the frame
    | FrameIntoColumn       // a whole frame stored into one column

  /** `_insert_wash_after_chunks`: the chunks, each followed by the wash
      block, concatenated; `pd.concat` of no chunks raises. */
  function InsertWashAfterChunks<T>(s: seq<T>, wash: seq<T>, size: nat): Result<seq<T>, Fault>
    requires size > 0
  {
    var chunks := Chunks(s, size);
    if |chunks| == 0 then Failure(NothingToConcatenate)
    else Success(Concat(ChunksWithWash(chunks, wash)))
  }

  /** Concatenating the chunks, each with its wash block, adds the wash's
      length once per chunk. */
  lemma {:induction false} ConcatWithWashLength<T>(chunks: seq<seq<T>>, wash: seq<T>)
    ensures |Concat(ChunksWithWash(chunks, wash))| == |Concat(chunks)| + |chunks| * |wash|
  {
    if |chunks| > 0 {
      var w := ChunksWithWash(chunks, wash);
      ConcatWithWashLength(chunks[1..], wash);
      assert w[1..] == ChunksWithWash(chunks[1..], wash);
    }
  }

  /** The insertion raises exactly on an empty input, and otherwise yields
      n + NumChunks(n) * |wash| rows. */
  lemma InsertWashLength<T>(s: seq<T>, wash: seq<T>, size: nat)
    requires size > 0
    ensures InsertWashAfterChunks(s, wash, size).Failure? <==> |s| == 0
    ensures InsertWashAfterChunks(s, wash, size).Success? ==>
              |InsertWashAfterChunks(s, wash, size).value| == |s| + NumChunks(|s|, size) * |wash|
  {
    ChunksProperties(s, size);
    ConcatWithWashLength(Chunks(s, size), wash);
  }

  /** The shape of the result: a short input gets one wash block at its end;
      a longer one gets its first full chunk, a wash block, and the rest
      treated the same way. */
  lemma InsertWashUnfold<T>(s: seq<T>, wash: seq<T>, size: nat)
    requires size > 0 && |s| > 0
    ensures |s| <= size ==> InsertWashAfterChunks(s, wash, size) == Success(s + wash)
    ensures |s| > size ==> InsertWashAfterChunks(s[size..], wash, size).Success?
    ensures |s| > size ==> InsertWashAfterChunks(s, wash, size).value
                           == s[..size] + wash + InsertWashAfterChunks(s[size..], wash, size).value
  {
    var cs := Chunks(s, size);
    var w := ChunksWithWash(cs, wash);
    if |s| <= size {
      assert cs == [s];
      assert w == [s + wash];
      assert w[1..] == [];
      assert Concat(w) == (s + wash) + Concat([]);
      assert s + wash + [] == s + wash;
    } else {
      assert Chunks(s[size..], size) == cs[1..];
      assert w[1..] == ChunksWithWash(cs[1..], wash);
      assert |cs[1..]| > 0;
    }
  }

  /** `_sanitize_xml_columns` for one name: spaces and slashes become
      underscores, parentheses are dropped. */
  function SanitizeName(c: string): string
  {
    Replace(Replace(Replace(Replace(c, " ", "_"), "/", "_"), "(", ""), ")", "")
  }

  function SanitizeXmlColumns(cols: seq<string>): (r: seq<string>)
    ensures |r| == |cols| && forall i :: 0 <= i < |cols| ==> r[i] == SanitizeName(cols[i])
  {
    seq(|cols|, i requires 0 <= i < |cols| => SanitizeName(cols[i]))
  }

  predicate XmlSafe(c: string)
  {
    ' ' !in c && '/' !in c && '(' !in c && ')' !in c
  }

  /** A sanitized name holds no space, slash or parenthesis. */
  lemma SanitizeNameSafe(c: string)
    ensures XmlSafe(SanitizeName(c))
  {
    var r1 := Replace(c, " ", "_");
    var r2 := Replace(r1, "/", "_");
    var r3 := Replace(r2, "(", "");
    var r4 := Replace(r3, ")", "");
    ReplaceRemovesChar(c, ' ', "_");
    ReplaceRemovesChar(r1, '/', "_");
    ReplaceRemovesChar(r2, '(', "");
    ReplaceRemovesChar(r3, ')', "");
    forall x | x in r2 ensures x != ' ' { ReplaceChars(r1, "/", "_", x); }
    forall x | x in r3 ensures x != ' ' && x != '/' { ReplaceChars(r2, "(", "", x); }
    forall x | x in r4 ensures x != ' ' && x != '/' && x != '(' { ReplaceChars(r3, ")", "", x); }
  }

  /** A name that is already safe is left as it is. */
  lemma SanitizeNameKeepsSafe(c: string)
    requires XmlSafe(c)
    ensures SanitizeName(c) == c
  {
    ReplaceAbsentChar(c, ' ', "_");
    ReplaceAbsentChar(c, '/', "_");
    ReplaceAbsentChar(c, '(', "");
    ReplaceAbsentChar(c, ')', "");
  }

  /** Every sanitized column name is safe for XML, and the names are left
      exactly as they are when, and only when, all of them were safe. */
  lemma SanitizeXmlColumnsSafe(cols: seq<string>)
    ensures var r := SanitizeXmlColumns(cols);
            && |r| == |cols|
            && (forall i :: 0 <= i < |r| ==> XmlSafe(r[i]))
            && ((forall i :: 0 <= i < |cols| ==> XmlSafe(cols[i])) <==> r == cols)
  {
    var r := SanitizeXmlColumns(cols);
    forall i | 0 <= i < |r|
      ensures XmlSafe(r[i])
    {
      SanitizeNameSafe(cols[i]);
    }
    if forall i :: 0 <= i < |cols| ==> XmlSafe(cols[i]) {
      forall i | 0 <= i < |cols|
        ensures r[i] == cols[i]
      {
        SanitizeNameKeepsSafe(cols[i]);
      }
    }
  }

  /** Sanitizing twice is sanitizing once. */
  lemma SanitizeIdempotent(cols: seq<string>)
    ensures SanitizeXmlColumns(SanitizeXmlColumns(cols)) == SanitizeXmlColumns(cols)
  {
    forall i | 0 <= i < |cols|
      ensures SanitizeName(SanitizeName(cols[i])) == SanitizeName(cols[i])
    {
      SanitizeNameSafe(cols[i]);
      SanitizeNameKeepsSafe(SanitizeName(cols[i]));
    }
  }
}
