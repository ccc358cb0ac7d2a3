/**
 * Filename-based detection of the compression kind and the sequence-file
 * format of an upload. Nothing looks at the file's content: the decision is
 * taken from the suffixes of the lower-cased name alone.
 */
module FileUtils {

  import opened Wrappers
  import opened PyStr

  /** The three compression kinds; `Name` is the string the program reports. */
  datatype Compression = Uncompressed | Gzip | Bzip2 {
    function Name(): string {
      match this
      case Uncompressed => "none"
      case Gzip => "gzip"
      case Bzip2 => "bzip2"
    }
  }

  /** The four sequence-file formats; `Name` is the string the program reports. */
  datatype Format = Fasta | Fastq | Genbank | Embl {
    function Name(): string {
      match this
      case Fasta => "fasta"
      case Fastq => "fastq"
      case Genbank => "genbank"
      case Embl => "embl"
    }
  }

  /** The ValueError("Unsupported format") of the format detector. */
  datatype FormatError = UnsupportedFormat

  /** Which compression kind a name announces (the suffix tests of `detect_compression`). */
  function DetectCompression(filename: string): Compression {
    var name := Lower(filename);
    if EndsWith(name, ".gz") || EndsWith(name, ".gzip") then Gzip
    else if EndsWith(name, ".bz2") || EndsWith(name, ".bzip2") then Bzip2
    else Uncompressed
  }

  /** Each compression suffix with the kind it announces. */
  const COMPRESSION_TABLE: seq<(string, Compression)> :=
    [(".gz", Gzip), (".gzip", Gzip), (".bz2", Bzip2), (".bzip2", Bzip2)]

  /** The compression suffixes in the order the format detector strips them. */
  const COMPRESSION_EXTS: seq<string> := [".gz", ".gzip", ".bz2", ".bzip2"]

  /** Each format suffix with the format it announces. */
  const FORMAT_TABLE: seq<(string, Format)> :=
    [(".fa", Fasta), (".fasta", Fasta), (".fna", Fasta),
     (".fq", Fastq), (".fastq", Fastq),
     (".gb", Genbank), (".gbk", Genbank), (".genbank", Genbank),
     (".embl", Embl)]

  /** `name` ends with a table suffix for compression kind `c`. */
  predicate AnnouncesCompression(name: string, c: Compression) {
    exists i :: 0 <= i < |COMPRESSION_TABLE| && COMPRESSION_TABLE[i].1 == c && EndsWith(name, COMPRESSION_TABLE[i].0)
  }

  /** `name` ends with a table suffix for format `f`. */
  predicate AnnouncesFormat(name: string, f: Format) {
    exists i :: 0 <= i < |FORMAT_TABLE| && FORMAT_TABLE[i].1 == f && EndsWith(name, FORMAT_TABLE[i].0)
  }

  /** What each compression suffix says about the last two characters of a name. */
  lemma CompressionSuffixChars(name: string)
    ensures EndsWith(name, ".gz") ==> name[|name| - 2..] == "gz"
    ensures EndsWith(name, ".gzip") ==> name[|name| - 2..] == "ip"
    ensures EndsWith(name, ".bz2") ==> name[|name| - 2..] == "z2"
    ensures EndsWith(name, ".bzip2") ==> name[|name| - 2..] == "p2"
  {
    if EndsWith(name, ".gz") { EndsWithLastChars(name, ".gz"); }
    if EndsWith(name, ".gzip") { EndsWithLastChars(name, ".gzip"); }
    if EndsWith(name, ".bz2") { EndsWithLastChars(name, ".bz2"); }
    if EndsWith(name, ".bzip2") { EndsWithLastChars(name, ".bzip2"); }
  }

  /**
   * The detected compression is Gzip or Bzip2 exactly when the lower-cased
   * name ends with one of that kind's suffixes, and Uncompressed exactly when
   * it ends with none of the four.
   */
  lemma CompressionMatchesTable(filename: string, c: Compression)
    ensures c != Uncompressed ==> (DetectCompression(filename) == c <==> AnnouncesCompression(Lower(filename), c))
    ensures DetectCompression(filename) == Uncompressed <==>
      forall i :: 0 <= i < |COMPRESSION_TABLE| ==> !EndsWith(Lower(filename), COMPRESSION_TABLE[i].0)
  {
    var name := Lower(filename);
    CompressionSuffixChars(name);
    assert COMPRESSION_TABLE[0] == (".gz", Gzip);
    assert COMPRESSION_TABLE[1] == (".gzip", Gzip);
    assert COMPRESSION_TABLE[2] == (".bz2", Bzip2);
    assert COMPRESSION_TABLE[3] == (".bzip2", Bzip2);
    if AnnouncesCompression(name, c) {
      var i :| 0 <= i < |COMPRESSION_TABLE| && COMPRESSION_TABLE[i].1 == c && EndsWith(name, COMPRESSION_TABLE[i].0);
      assert i == 0 || i == 1 || i == 2 || i == 3;
    }
    if DetectCompression(filename) == Uncompressed {
      forall i | 0 <= i < |COMPRESSION_TABLE|
        ensures !EndsWith(name, COMPRESSION_TABLE[i].0)
      {
        assert i == 0 || i == 1 || i == 2 || i == 3;
      }
    }
  }

  /**
   * The Python expression `name[:-len(ext)]` applied when `name` ends with
   * `ext`. For an empty `ext` that slice is `name[:0]`, the empty string; the
   * four suffixes the loop uses are all non-empty.
   */
  function StripSuffix(name: string, ext: string): (r: string)
    ensures |r| <= |name| && r == name[..|r|]
  {
    if !EndsWith(name, ext) then name
    else if ext == [] then []
    else name[..|name| - |ext|]
  }

  /**
   * The stripping loop of `detect_file_format`: try each suffix of `exts` once,
   * in order, removing it from the current name when the name ends with it.
   */
  function StripAll(name: string, exts: seq<string>): (r: string)
    ensures |r| <= |name| && r == name[..|r|]
    decreases |exts|
  {
    if exts == [] then name else StripAll(StripSuffix(name, exts[0]), exts[1..])
  }

  /** The format suffix table of `detect_file_format`, applied to an already stripped name. */
  function FormatOfStripped(name: string): Result<Format, FormatError> {
    if EndsWith(name, ".fa") || EndsWith(name, ".fasta") || EndsWith(name, ".fna") then Ok(Fasta)
    else if EndsWith(name, ".fq") || EndsWith(name, ".fastq") then Ok(Fastq)
    else if EndsWith(name, ".gb") || EndsWith(name, ".gbk") || EndsWith(name, ".genbank") then Ok(Genbank)
    else if EndsWith(name, ".embl") then Ok(Embl)
    else Err(UnsupportedFormat)
  }

  /** `detect_file_format` as a value: lower-case, strip compression suffixes, look up the format. */
  function FileFormatOf(filename: string): Result<Format, FormatError> {
    FormatOfStripped(StripAll(Lower(filename), COMPRESSION_EXTS))
  }

  /** `detect_file_format`, with its loop over the compression suffixes. */
  method DetectFileFormat(filename: string) returns (r: Result<Format, FormatError>)
    ensures r == FileFormatOf(filename)
  {
    var name := Lower(filename);
    ghost var lowered := name;
    for i := 0 to |COMPRESSION_EXTS|
      invariant StripAll(name, COMPRESSION_EXTS[i..]) == StripAll(lowered, COMPRESSION_EXTS)
    {
      var ext := COMPRESSION_EXTS[i];
      assert COMPRESSION_EXTS[i..][1..] == COMPRESSION_EXTS[i + 1..];
      if EndsWith(name, ext) {
        name := name[..|name| - |ext|];
      }
    }
    assert COMPRESSION_EXTS[|COMPRESSION_EXTS|..] == [];
    r := FormatOfStripped(name);
  }

  /** What each format suffix says about the last character of a name. */
  lemma FormatSuffixChars(name: string)
    ensures EndsWith(name, ".fa") || EndsWith(name, ".fasta") || EndsWith(name, ".fna") ==> name[|name| - 1] == 'a'
    ensures EndsWith(name, ".fq") || EndsWith(name, ".fastq") ==> name[|name| - 1] == 'q'
    ensures EndsWith(name, ".gb") ==> name[|name| - 1] == 'b'
    ensures EndsWith(name, ".gbk") || EndsWith(name, ".genbank") ==> name[|name| - 1] == 'k'
    ensures EndsWith(name, ".embl") ==> name[|name| - 1] == 'l'
  {
    if EndsWith(name, ".fa") { EndsWithLastChars(name, ".fa"); }
    if EndsWith(name, ".fasta") { EndsWithLastChars(name, ".fasta"); }
    if EndsWith(name, ".fna") { EndsWithLastChars(name, ".fna"); }
    if EndsWith(name, ".fq") { EndsWithLastChars(name, ".fq"); }
    if EndsWith(name, ".fastq") { EndsWithLastChars(name, ".fastq"); }
    if EndsWith(name, ".gb") { EndsWithLastChars(name, ".gb"); }
    if EndsWith(name, ".gbk") { EndsWithLastChars(name, ".gbk"); }
    if EndsWith(name, ".genbank") { EndsWithLastChars(name, ".genbank"); }
    if EndsWith(name, ".embl") { EndsWithLastChars(name, ".embl"); }
  }

  /** A name ending with table entry `i`'s suffix announces that entry's format. */
  lemma AnnouncedBy(name: string, i: nat)
    requires i < |FORMAT_TABLE| && EndsWith(name, FORMAT_TABLE[i].0)
    ensures AnnouncesFormat(name, FORMAT_TABLE[i].1)
  {
  }

  /** A format the table picks is announced by one of that format's suffixes. */
  lemma FormatSound(name: string)
    ensures FormatOfStripped(name).Ok? ==> AnnouncesFormat(name, FormatOfStripped(name).value)
  {
    var t := FORMAT_TABLE;
    assert t[0] == (".fa", Fasta) && t[1] == (".fasta", Fasta) && t[2] == (".fna", Fasta);
    assert t[3] == (".fq", Fastq) && t[4] == (".fastq", Fastq);
    assert t[5] == (".gb", Genbank) && t[6] == (".gbk", Genbank) && t[7] == (".genbank", Genbank);
    assert t[8] == (".embl", Embl);
    var r := FormatOfStripped(name);
    if r == Ok(Fasta) {
      if EndsWith(name, ".fa") {
        AnnouncedBy(name, 0);
      } else if EndsWith(name, ".fasta") {
        AnnouncedBy(name, 1);
      } else {
        AnnouncedBy(name, 2);
      }
    } else if r == Ok(Fastq) {
      if EndsWith(name, ".fq") {
        AnnouncedBy(name, 3);
      } else {
        AnnouncedBy(name, 4);
      }
    } else if r == Ok(Genbank) {
      if EndsWith(name, ".gb") {
        AnnouncedBy(name, 5);
      } else if EndsWith(name, ".gbk") {
        AnnouncedBy(name, 6);
      } else {
        AnnouncedBy(name, 7);
      }
    } else if r == Ok(Embl) {
      AnnouncedBy(name, 8);
    }
  }

  /** Any table suffix a name ends with makes the table pick that suffix's format. */
  lemma FormatComplete(name: string, i: nat)
    requires i < |FORMAT_TABLE| && EndsWith(name, FORMAT_TABLE[i].0)
    ensures FormatOfStripped(name) == Ok(FORMAT_TABLE[i].1)
  {
    if i == 0 {
      assert FORMAT_TABLE[0] == (".fa", Fasta);
      assert FormatOfStripped(name) == Ok(Fasta) by { FormatSuffixChars(name); }
    } else if i == 1 {
      assert FORMAT_TABLE[1] == (".fasta", Fasta);
      assert FormatOfStripped(name) == Ok(Fasta) by { FormatSuffixChars(name); }
    } else if i == 2 {
      assert FORMAT_TABLE[2] == (".fna", Fasta);
      assert FormatOfStripped(name) == Ok(Fasta) by { FormatSuffixChars(name); }
    } else if i == 3 {
      assert FORMAT_TABLE[3] == (".fq", Fastq);
      assert FormatOfStripped(name) == Ok(Fastq) by { FormatSuffixChars(name); }
    } else if i == 4 {
      assert FORMAT_TABLE[4] == (".fastq", Fastq);
      assert FormatOfStripped(name) == Ok(Fastq) by { FormatSuffixChars(name); }
    } else if i == 5 {
      assert FORMAT_TABLE[5] == (".gb", Genbank);
      assert FormatOfStripped(name) == Ok(Genbank) by { FormatSuffixChars(name); }
    } else if i == 6 {
      assert FORMAT_TABLE[6] == (".gbk", Genbank);
      assert FormatOfStripped(name) == Ok(Genbank) by { FormatSuffixChars(name); }
    } else if i == 7 {
      assert FORMAT_TABLE[7] == (".genbank", Genbank);
      assert FormatOfStripped(name) == Ok(Genbank) by { FormatSuffixChars(name); }
    } else {
      assert FORMAT_TABLE[8] == (".embl", Embl);
      assert FormatOfStripped(name) == Ok(Embl) by { FormatSuffixChars(name); }
    }
  }

  /**
   * The format table picks format `f` exactly when the name ends with one of
   * `f`'s suffixes, and fails exactly when it ends with none of the nine: no
   * name ends with suffixes of two different formats, so the order of the
   * checks does not matter.
   */
  lemma FormatMatchesTable(name: string, f: Format)
    ensures FormatOfStripped(name) == Ok(f) <==> AnnouncesFormat(name, f)
    ensures FormatOfStripped(name).Err? <==>
      forall i :: 0 <= i < |FORMAT_TABLE| ==> !EndsWith(name, FORMAT_TABLE[i].0)
  {
    FormatSound(name);
    if AnnouncesFormat(name, f) {
      var i :| 0 <= i < |FORMAT_TABLE| && FORMAT_TABLE[i].1 == f && EndsWith(name, FORMAT_TABLE[i].0);
      FormatComplete(name, i);
    }
    if exists i :: 0 <= i < |FORMAT_TABLE| && EndsWith(name, FORMAT_TABLE[i].0) {
      var i :| 0 <= i < |FORMAT_TABLE| && EndsWith(name, FORMAT_TABLE[i].0);
      FormatComplete(name, i);
    }
  }

  /**
   * Stripping leaves a name unchanged exactly when it ends with none of the
   * (non-empty) suffixes; once one of them matches, the name only gets shorter.
   */
  lemma {:induction false} StripAllUnchanged(name: string, exts: seq<string>)
    requires forall i :: 0 <= i < |exts| ==> exts[i] != []
    ensures StripAll(name, exts) == name <==> forall i :: 0 <= i < |exts| ==> !EndsWith(name, exts[i])
  {
    if exts != [] {
      StripAllUnchanged(name, exts[1..]);
      if EndsWith(name, exts[0]) {
        assert |StripAll(name, exts)| <= |StripSuffix(name, exts[0])| < |name|;
      } else {
        forall i | 1 <= i < |exts|
          ensures exts[i] == exts[1..][i - 1]
        {
        }
      }
    }
  }

  /**
   * A name announces no compression exactly when the format detector's
   * stripping loop leaves its lower-cased form unchanged.
   */
  lemma UncompressedIffNothingStripped(filename: string)
    ensures DetectCompression(filename) == Uncompressed <==>
      StripAll(Lower(filename), COMPRESSION_EXTS) == Lower(filename)
  {
    var name := Lower(filename);
    assert COMPRESSION_EXTS[0] == ".gz" && COMPRESSION_EXTS[1] == ".gzip";
    assert COMPRESSION_EXTS[2] == ".bz2" && COMPRESSION_EXTS[3] == ".bzip2";
    StripAllUnchanged(name, COMPRESSION_EXTS);
    if DetectCompression(filename) == Uncompressed {
      forall i | 0 <= i < |COMPRESSION_EXTS|
        ensures !EndsWith(name, COMPRESSION_EXTS[i])
      {
        assert i == 0 || i == 1 || i == 2 || i == 3;
      }
    }
  }

  /** Both detectors look only at the lower-cased name. */
  lemma DetectionIgnoresCase(filename: string)
    ensures DetectCompression(Lower(filename)) == DetectCompression(filename)
    ensures DetectCompression(Upper(filename)) == DetectCompression(filename)
    ensures FileFormatOf(Lower(filename)) == FileFormatOf(filename)
    ensures FileFormatOf(Upper(filename)) == FileFormatOf(filename)
  {
    LowerIdempotent(filename);
    LowerOfUpper(filename);
  }

  /** The stripping loop in the fixed suffix order, written out step by step. */
  lemma StripCompressionUnrolled(name: string)
    ensures StripAll(name, COMPRESSION_EXTS) ==
      StripSuffix(StripSuffix(StripSuffix(StripSuffix(name, ".gz"), ".gzip"), ".bz2"), ".bzip2")
  {
    var e1 := COMPRESSION_EXTS[1..];
    var e2 := e1[1..];
    var e3 := e2[1..];
    assert COMPRESSION_EXTS[0] == ".gz" && e1[0] == ".gzip" && e2[0] == ".bz2" && e3[0] == ".bzip2";
    assert e3[1..] == [];
    var s1 := StripSuffix(name, ".gz");
    var s2 := StripSuffix(s1, ".gzip");
    var s3 := StripSuffix(s2, ".bz2");
    assert StripAll(name, COMPRESSION_EXTS) == StripAll(s1, e1);
    assert StripAll(s1, e1) == StripAll(s2, e2);
    assert StripAll(s2, e2) == StripAll(s3, e3);
    assert StripAll(s3, e3) == StripAll(StripSuffix(s3, ".bzip2"), e3[1..]);
  }

  /**
   * When a name ends with exactly one of the suffixes, and what is left after
   * removing it ends with none, stripping removes just that one suffix.
   */
  lemma {:induction false} StripAllOne(name: string, exts: seq<string>, k: nat)
    requires forall j :: 0 <= j < |exts| ==> exts[j] != []
    requires k < |exts| && EndsWith(name, exts[k])
    requires forall j :: 0 <= j < |exts| && j != k ==> !EndsWith(name, exts[j])
    requires forall j :: 0 <= j < |exts| ==> !EndsWith(name[..|name| - |exts[k]|], exts[j])
    ensures StripAll(name, exts) == name[..|name| - |exts[k]|]
  {
    var rest := exts[1..];
    forall j | 0 <= j < |rest|
      ensures rest[j] == exts[j + 1]
    {
    }
    if k == 0 {
      StripAllUnchanged(name[..|name| - |exts[0]|], rest);
    } else {
      StripAllOne(name, rest, k - 1);
    }
  }

  /** The last two characters of compression suffix `k`. */
  function ExtTail(k: nat): (char, char)
    requires k < |COMPRESSION_EXTS|
  {
    var e := COMPRESSION_EXTS[k];
    (e[|e| - 2], e[|e| - 1])
  }

  /** No two compression suffixes end in the same two characters. */
  lemma ExtTailsDistinct(i: nat, j: nat)
    requires i < |COMPRESSION_EXTS| && j < |COMPRESSION_EXTS| && i != j
    ensures ExtTail(i) != ExtTail(j)
  {
    assert ExtTail(0) == ('g', 'z') by { assert COMPRESSION_EXTS[0] == ".gz"; }
    assert ExtTail(1) == ('i', 'p') by { assert COMPRESSION_EXTS[1] == ".gzip"; }
    assert ExtTail(2) == ('z', '2') by { assert COMPRESSION_EXTS[2] == ".bz2"; }
    assert ExtTail(3) == ('p', '2') by { assert COMPRESSION_EXTS[3] == ".bzip2"; }
  }

  /** A name ends with at most one of the four compression suffixes. */
  lemma CompressionSuffixesDistinct(name: string, i: nat)
    requires i < |COMPRESSION_EXTS| && EndsWith(name, COMPRESSION_EXTS[i])
    ensures forall j :: 0 <= j < |COMPRESSION_EXTS| && j != i ==> !EndsWith(name, COMPRESSION_EXTS[j])
  {
    assert |COMPRESSION_EXTS[i]| >= 2 by { assert i < 4; }
    EndsWithLastChars(name, COMPRESSION_EXTS[i]);
    forall j | 0 <= j < |COMPRESSION_EXTS| && j != i
      ensures !EndsWith(name, COMPRESSION_EXTS[j])
    {
      if EndsWith(name, COMPRESSION_EXTS[j]) {
        assert |COMPRESSION_EXTS[j]| >= 2 by { assert j < 4; }
        EndsWithLastChars(name, COMPRESSION_EXTS[j]);
        ExtTailsDistinct(i, j);
        assert false;
      }
    }
  }

  /** The compression suffixes are already lower case. */
  lemma CompressionExtLower(k: nat)
    requires k < |COMPRESSION_EXTS|
    ensures Lower(COMPRESSION_EXTS[k]) == COMPRESSION_EXTS[k]
  {
    if k == 0 {
      assert Lower(".gz") == ".gz";
    } else if k == 1 {
      assert Lower(".gzip") == ".gzip";
    } else if k == 2 {
      assert Lower(".bz2") == ".bz2";
    } else {
      assert Lower(".bzip2") == ".bzip2";
    }
  }

  /**
   * Appending one compression suffix to a name that carries none leaves the
   * detected format unchanged and makes the detected compression that
   * suffix's kind.
   */
  lemma AppendCompressionSuffix(n: string, i: nat)
    requires DetectCompression(n) == Uncompressed
    requires i < |COMPRESSION_EXTS|
    ensures FileFormatOf(n + COMPRESSION_EXTS[i]) == FileFormatOf(n)
    ensures DetectCompression(n + COMPRESSION_EXTS[i]) == COMPRESSION_TABLE[i].1
  {
    var ext := COMPRESSION_EXTS[i];
    var l := Lower(n);
    var named := l + ext;
    assert Lower(n + ext) == named by {
      CaseMapsConcat(n, ext);
      CompressionExtLower(i);
    }
    assert |ext| > 0 by { assert i < 4; }
    EndsWithAppended(l, ext);
    assert named[..|named| - |ext|] == l;
    CompressionSuffixesDistinct(named, i);
    assert forall j :: 0 <= j < |COMPRESSION_EXTS| ==> COMPRESSION_EXTS[j] != [] && !EndsWith(l, COMPRESSION_EXTS[j]) by {
      UncompressedIffNothingStripped(n);
      StripAllUnchanged(l, COMPRESSION_EXTS);
    }
    assert StripAll(named, COMPRESSION_EXTS) == l by {
      StripAllOne(named, COMPRESSION_EXTS, i);
    }
    assert StripAll(l, COMPRESSION_EXTS) == l by {
      UncompressedIffNothingStripped(n);
    }
    assert DetectCompression(n + ext) == COMPRESSION_TABLE[i].1 by {
      CompressionMatchesTable(n + ext, COMPRESSION_TABLE[i].1);
      assert COMPRESSION_TABLE[i].0 == ext && COMPRESSION_TABLE[i].1 != Uncompressed by { assert i < 4; }
      assert AnnouncesCompression(named, COMPRESSION_TABLE[i].1);
    }
  }

  /** A name that announces no compression is looked up as it is, lower-cased. */
  lemma FormatOfUncompressed(n: string)
    requires DetectCompression(n) == Uncompressed
    ensures FileFormatOf(n) == FormatOfStripped(Lower(n))
  {
    UncompressedIffNothingStripped(n);
  }

  /**
   * Removing a non-empty suffix the name was built with gives back what came
   * before it (an empty suffix would take the whole name away).
   */
  lemma StripAppended(s: string, ext: string)
    requires ext != []
    ensures StripSuffix(s + ext, ext) == s
  {
    EndsWithAppended(s, ext);
    assert (s + ext)[..|s|] == s;
  }

  /** Lower-casing commutes with appending compression suffix `k`. */
  lemma LowerAppendExt(n: string, k: nat)
    requires k < |COMPRESSION_EXTS|
    ensures Lower(n + COMPRESSION_EXTS[k]) == Lower(n) + COMPRESSION_EXTS[k]
  {
    CaseMapsConcat(n, COMPRESSION_EXTS[k]);
    CompressionExtLower(k);
  }

  /** A name built by appending compression suffix `k` ends with no other one. */
  lemma OnlyAppendedExt(s: string, k: nat)
    requires k < |COMPRESSION_EXTS|
    ensures EndsWith(s + COMPRESSION_EXTS[k], COMPRESSION_EXTS[k])
    ensures forall j :: 0 <= j < |COMPRESSION_EXTS| && j != k ==> !EndsWith(s + COMPRESSION_EXTS[k], COMPRESSION_EXTS[j])
  {
    EndsWithAppended(s, COMPRESSION_EXTS[k]);
    CompressionSuffixesDistinct(s + COMPRESSION_EXTS[k], k);
  }

  /**
   * ".bz2" followed by ".gz" are both removed, because ".gz" is tried first:
   * the format is that of the name without either.
   */
  lemma Bz2ThenGzBothStripped(n: string)
    requires DetectCompression(n) == Uncompressed
    ensures FileFormatOf(n + ".bz2" + ".gz") == FileFormatOf(n)
  {
    var e := COMPRESSION_EXTS;
    assert e[0] == ".gz" && e[1] == ".gzip" && e[2] == ".bz2" && e[3] == ".bzip2";
    var l := Lower(n);
    var a := l + ".bz2";
    assert Lower(n + ".bz2" + ".gz") == a + ".gz" by {
      LowerAppendExt(n + ".bz2", 0);
      LowerAppendExt(n, 2);
    }
    assert StripSuffix(a + ".gz", ".gz") == a by { StripAppended(a, ".gz"); }
    assert StripSuffix(a, ".gzip") == a by { OnlyAppendedExt(l, 2); }
    assert StripSuffix(a, ".bz2") == l by { StripAppended(l, ".bz2"); }
    assert StripSuffix(l, ".bzip2") == l by { assert !EndsWith(l, ".bzip2"); }
    assert StripAll(a + ".gz", e) == l by { StripCompressionUnrolled(a + ".gz"); }
    FormatOfUncompressed(n);
  }

  /**
   * ".gz" followed by ".bz2" leaves the ".gz" in place, because ".gz" was
   * already tried when ".bz2" goes: no format suffix is left at the end.
   */
  lemma GzThenBz2Unsupported(n: string)
    ensures FileFormatOf(n + ".gz" + ".bz2") == Err(UnsupportedFormat)
  {
    var e := COMPRESSION_EXTS;
    assert e[0] == ".gz" && e[1] == ".gzip" && e[2] == ".bz2" && e[3] == ".bzip2";
    var a := Lower(n) + ".gz";
    assert Lower(n + ".gz" + ".bz2") == a + ".bz2" by {
      LowerAppendExt(n + ".gz", 2);
      LowerAppendExt(n, 0);
    }
    assert StripSuffix(a + ".bz2", ".gz") == a + ".bz2" by { OnlyAppendedExt(a, 2); }
    assert StripSuffix(a + ".bz2", ".gzip") == a + ".bz2" by { OnlyAppendedExt(a, 2); }
    assert StripSuffix(a + ".bz2", ".bz2") == a by { StripAppended(a, ".bz2"); }
    assert StripSuffix(a, ".bzip2") == a by { OnlyAppendedExt(Lower(n), 0); }
    StripCompressionUnrolled(a + ".bz2");
    assert FormatOfStripped(a) == Err(UnsupportedFormat) by {
      EndsWithAppended(Lower(n), ".gz");
      EndsWithLastChars(a, ".gz");
      FormatSuffixChars(a);
    }
  }

  /** A repeated ".gz" is removed only once, so nothing recognisable is left. */
  lemma DoubleGzUnsupported(n: string)
    ensures FileFormatOf(n + ".gz" + ".gz") == Err(UnsupportedFormat)
  {
    var e := COMPRESSION_EXTS;
    assert e[0] == ".gz" && e[1] == ".gzip" && e[2] == ".bz2" && e[3] == ".bzip2";
    var a := Lower(n) + ".gz";
    assert Lower(n + ".gz" + ".gz") == a + ".gz" by {
      LowerAppendExt(n + ".gz", 0);
      LowerAppendExt(n, 0);
    }
    assert StripSuffix(a + ".gz", ".gz") == a by { StripAppended(a, ".gz"); }
    assert StripSuffix(a, ".gzip") == a && StripSuffix(a, ".bz2") == a && StripSuffix(a, ".bzip2") == a by {
      OnlyAppendedExt(Lower(n), 0);
    }
    StripCompressionUnrolled(a + ".gz");
    assert FormatOfStripped(a) == Err(UnsupportedFormat) by {
      EndsWithAppended(Lower(n), ".gz");
      EndsWithLastChars(a, ".gz");
      FormatSuffixChars(a);
    }
  }

  /** "reads.fq" is an uncompressed FASTQ file. */
  lemma ReadsFqIsFastq()
    ensures DetectCompression("reads.fq") == Uncompressed
    ensures FileFormatOf("reads.fq") == Ok(Fastq)
  {
    var n := "reads.fq";
    assert Lower(n) == n;
    CompressionSuffixChars(n);
    assert n[|n| - 2..] == "fq";
    StripCompressionUnrolled(n);
    FormatSuffixChars(n);
    assert n[|n| - 1] == 'q';
    assert EndsWith(n, ".fq");
  }

  /** "x.txt" announces no compression and no supported format. */
  lemma TxtIsUnsupported()
    ensures DetectCompression("x.txt") == Uncompressed
    ensures FileFormatOf("x.txt") == Err(UnsupportedFormat)
  {
    var n := "x.txt";
    assert Lower(n) == n;
    StripCompressionUnrolled(n);
    assert !EndsWith(n, ".gz") && !EndsWith(n, ".gzip") && !EndsWith(n, ".bz2") && !EndsWith(n, ".bzip2");
    FormatSuffixChars(n);
  }

  /** "sample.fasta.gz" is a gzip-compressed FASTA file. */
  lemma SampleFastaGzIsGzippedFasta()
    ensures DetectCompression("sample.fasta.gz") == Gzip
    ensures FileFormatOf("sample.fasta.gz") == Ok(Fasta)
  {
    var n := "sample.fasta.gz";
    var stem := "sample.fasta";
    assert Lower(n) == n;
    assert EndsWith(n, ".gz");
    StripCompressionUnrolled(n);
    assert StripSuffix(n, ".gz") == stem;
    assert !EndsWith(stem, ".gzip") && !EndsWith(stem, ".bz2") && !EndsWith(stem, ".bzip2");
    assert EndsWith(stem, ".fasta");
  }
}
