/**
 * Sniffing a data file's format from its first bytes: a ZIP signature
 * means a workbook in the XLSX format, an OLE2 compound-file signature an
 * XLS workbook, and a comma or tab on the first text line a CSV file.
 */
module FileFormat {
  import opened Wrappers

  datatype Format = Xlsx | Xls | Csv

  /** How many bytes of the file are read. */
  const HeadSize := 4096

  const ZipMagic: seq<bv8> := [0x50, 0x4B, 0x03, 0x04]
  const OleMagic: seq<bv8> := [0xD0, 0xCF, 0x11, 0xE0]

  /** The bytes read from the file (`f.read(4096)`). */
  function Head(content: seq<bv8>): (h: seq<bv8>)
    ensures |h| == if |content| < HeadSize then |content| else HeadSize
    ensures h == content[..|h|]
  {
    if |content| < HeadSize then content else content[..HeadSize]
  }

  predicate StartsWith(s: seq<bv8>, prefix: seq<bv8>)
  {
    |prefix| <= |s| && s[..|prefix|] == prefix
  }

  /** The ASCII characters `str.splitlines` breaks a line at. */
  predicate IsLineBreak(b: bv8)
  {
    b == 0x0A || b == 0x0D || b == 0x0B || b == 0x0C || b == 0x1C || b == 0x1D || b == 0x1E
  }

  /** A comma or a tab. */
  predicate IsSeparator(b: bv8)
  {
    b == 0x2C || b == 0x09
  }

  /** The bytes before the first line break (the first of `splitlines()`, or empty). */
  function FirstLine(s: seq<bv8>): (l: seq<bv8>)
    ensures |l| <= |s| && l == s[..|l|]
    ensures forall k :: 0 <= k < |l| ==> !IsLineBreak(l[k])
    ensures |l| < |s| ==> IsLineBreak(s[|l|])
  {
    if |s| == 0 || IsLineBreak(s[0]) then []
    else [s[0]] + FirstLine(s[1..])
  }

  /** A separator stands at position `i` and no line break before it. */
  predicate SeparatorOnFirstLineAt(s: seq<bv8>, i: int)
  {
    0 <= i < |s| && IsSeparator(s[i]) && forall k :: 0 <= k < i ==> !IsLineBreak(s[k])
  }

  /**
   * `_detect_file_format`: the two signatures are checked in turn on the
   * head of the file; otherwise it is CSV exactly when a comma or a tab
   * comes before any line break within the first 4096 bytes, and
   * unrecognised (`None`) when not.
   */
  function DetectFileFormat(content: seq<bv8>): (r: Option<Format>)
    ensures r == Some(Xlsx) <==> StartsWith(content, ZipMagic)
    ensures r == Some(Xls) <==> !StartsWith(content, ZipMagic) && StartsWith(content, OleMagic)
    ensures r == Some(Csv) <==>
      && !StartsWith(content, ZipMagic) && !StartsWith(content, OleMagic)
      && exists i :: i < HeadSize && SeparatorOnFirstLineAt(content, i)
  {
    var head := Head(content);
    SignatureInHead(content, ZipMagic);
    SignatureInHead(content, OleMagic);
    SeparatorInFirstLine(content);
    if StartsWith(head, ZipMagic) then Some(Xlsx)
    else if StartsWith(head, OleMagic) then Some(Xls)
    else if exists b :: b in FirstLine(head) && IsSeparator(b) then Some(Csv)
    else None
  }

  /** A signature no longer than the head is found in the head exactly when the file starts with it. */
  lemma SignatureInHead(content: seq<bv8>, magic: seq<bv8>)
    requires |magic| <= HeadSize
    ensures StartsWith(Head(content), magic) <==> StartsWith(content, magic)
  {
    var h := Head(content);
    if |magic| <= |h| {
      assert h[..|magic|] == content[..|magic|];
    }
  }

  /** The first line of the head holds a separator exactly when one comes, within the head, before any line break. */
  lemma SeparatorInFirstLine(content: seq<bv8>)
    ensures (exists b :: b in FirstLine(Head(content)) && IsSeparator(b)) <==>
            (exists i :: i < HeadSize && SeparatorOnFirstLineAt(content, i))
  {
    if exists b :: b in FirstLine(Head(content)) && IsSeparator(b) {
      var b :| b in FirstLine(Head(content)) && IsSeparator(b);
      SeparatorFromFirstLine(content, b);
    }
    if exists i :: i < HeadSize && SeparatorOnFirstLineAt(content, i) {
      var i :| i < HeadSize && SeparatorOnFirstLineAt(content, i);
      SeparatorToFirstLine(content, i);
    }
  }

  /** A separator on the first line of the head stands before any line break of the file. */
  lemma SeparatorFromFirstLine(content: seq<bv8>, b: bv8)
    requires b in FirstLine(Head(content)) && IsSeparator(b)
    ensures exists i :: i < HeadSize && SeparatorOnFirstLineAt(content, i)
  {
    var h := Head(content);
    var l := FirstLine(h);
    var i :| 0 <= i < |l| && l[i] == b;
    assert h[i] == content[i];
    assert SeparatorOnFirstLineAt(content, i);
  }

  /** A separator within the head and before any line break is on the head's first line. */
  lemma SeparatorToFirstLine(content: seq<bv8>, i: int)
    requires i < HeadSize && SeparatorOnFirstLineAt(content, i)
    ensures content[i] in FirstLine(Head(content))
  {
    var h := Head(content);
    var l := FirstLine(h);
    assert i < |h|;
    assert forall k :: 0 <= k <= i ==> h[k] == content[k] && !IsLineBreak(h[k]);
    assert i < |l|;
    assert l[i] == content[i];
  }

  /** A ZIP archive is a workbook even with commas after the signature. */
  lemma ZipWins()
    ensures DetectFileFormat([0x50, 0x4B, 0x03, 0x04, 0x2C]) == Some(Xlsx)
  {
    assert StartsWith([0x50, 0x4B, 0x03, 0x04, 0x2C], ZipMagic);
  }

  /** A header line `a,b` is CSV; a comma only on the second line is not. */
  lemma CsvExamples()
    ensures DetectFileFormat([0x61, 0x2C, 0x62, 0x0A]) == Some(Csv)
    ensures DetectFileFormat([0x61, 0x0A, 0x2C]) == None
  {
    var s: seq<bv8> := [0x61, 0x2C, 0x62, 0x0A];
    assert SeparatorOnFirstLineAt(s, 1);
    assert !StartsWith(s, ZipMagic) && !StartsWith(s, OleMagic);
    var t: seq<bv8> := [0x61, 0x0A, 0x2C];
    assert !StartsWith(t, ZipMagic) && !StartsWith(t, OleMagic);
    assert forall i :: SeparatorOnFirstLineAt(t, i) ==> i == 2 && IsLineBreak(t[1]);
  }
}
