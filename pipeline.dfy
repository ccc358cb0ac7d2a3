/**
 * The record-aggregation pass over an uploaded file. Detection picks the
 * format and compression, an optional ID allow-list is built from
 * comma-separated text, and one of two loops walks the records the parser
 * produced: FASTQ reads (title, sequence, quality) or FASTA-like records
 * (id, sequence). Each loop sums lengths and GC ratios over the records that
 * pass the filter, counts them, and keeps one row per record unless only
 * statistics were asked for.
 */
module Pipeline {

  import opened Wrappers
  import opened PyStr
  import opened FileUtils
  import opened SequenceAnalysis

  /** One read as the FASTQ iterator yields it. */
  datatype FastqRecord = FastqRecord(title: string, sequence: string, quality: string)

  /** One record of a FASTA, GenBank or EMBL file as the parser yields it. */
  datatype SeqRecord = SeqRecord(id: string, sequence: string)

  /**
   * What the external parser yields for the uploaded content: the reads it
   * gives when the content is read as FASTQ, and the records it gives when
   * the content is read in the detected non-FASTQ format.
   */
  datatype ParsedContent = ParsedContent(fastqReads: seq<FastqRecord>, records: seq<SeqRecord>)

  /**
   * One per-record row: ID, Length, GC_content and, for FASTQ only,
   * Avg_quality.
   */
  datatype Row = Row(id: string, length: nat, gcContent: real, avgQuality: Option<real>)

  /** The result dictionary; `sequences` is None where the dictionary has no such key. */
  datatype ProcessingResult = ProcessingResult(
    filename: string,
    format: Format,
    compression: Compression,
    totalSequences: nat,
    totalBases: nat,
    averageLength: real,
    averageGcContent: real,
    filtered: bool,
    sequences: Option<seq<Row>>)

  /** The two ways a run ends without a result. */
  datatype PipelineError =
    | UnsupportedFileFormat  // detect_file_format raised
    | EmptyFastqTitle        // a FASTQ title had no token, so split(None, 1)[0] raised

  // ---------------------------------------------------------------- filter

  /** The set of stripped comma-separated tokens of `text`. */
  function FilterTokens(text: string): set<string> {
    set p | p in Split(text, ',') :: Strip(p)
  }

  /** The allow-list: absent when the filter text is None or empty. */
  function BuildFilter(filterIds: Option<string>): Option<set<string>> {
    if filterIds.Some? && filterIds.value != "" then Some(FilterTokens(filterIds.value)) else None
  }

  /** Python truthiness of `wanted_ids`: present and non-empty. */
  predicate Truthy(wanted: Option<set<string>>) {
    wanted.Some? && wanted.value != {}
  }

  /** The loops' test `not (wanted_ids and id not in wanted_ids)`. */
  predicate Passes(wanted: Option<set<string>>, id: string) {
    !(Truthy(wanted) && id !in wanted.value)
  }

  /** The first part alone guarantees the token set is never empty. */
  lemma FilterTokensNonEmpty(text: string)
    ensures FilterTokens(text) != {}
  {
    var parts := Split(text, ',');
    assert Strip(parts[0]) in FilterTokens(text);
  }

  /** A token is in the set exactly when some comma-separated part strips to it. */
  lemma FilterTokensMembers(text: string, id: string)
    ensures id in FilterTokens(text) <==>
      exists i :: 0 <= i < |Split(text, ',')| && Strip(Split(text, ',')[i]) == id
  {
    var parts := Split(text, ',');
    if id in FilterTokens(text) {
      var p :| p in parts && Strip(p) == id;
      var i :| 0 <= i < |parts| && parts[i] == p;
    }
  }

  /** No token begins or ends with whitespace. */
  lemma FilterTokensStripped(text: string, id: string)
    requires id in FilterTokens(text)
    ensures id == [] || (!IsSpace(id[0]) && !IsSpace(id[|id| - 1]))
  {
    var p :| p in Split(text, ',') && Strip(p) == id;
  }

  /**
   * The allow-list is absent exactly for None or empty text; when present it
   * is the token set, which is never empty, so the list is truthy exactly
   * when present.
   */
  lemma BuildFilterSpec(filterIds: Option<string>)
    ensures BuildFilter(filterIds).None? <==> filterIds.None? || filterIds.value == ""
    ensures BuildFilter(filterIds).Some? ==> BuildFilter(filterIds).value == FilterTokens(filterIds.value)
    ensures Truthy(BuildFilter(filterIds)) <==> BuildFilter(filterIds).Some?
  {
    if filterIds.Some? && filterIds.value != "" {
      FilterTokensNonEmpty(filterIds.value);
    }
  }

  /** A filter that is present lets through exactly its members; an absent one lets everything through. */
  lemma PassesSpec(filterIds: Option<string>, id: string)
    ensures BuildFilter(filterIds).None? ==> Passes(BuildFilter(filterIds), id)
    ensures BuildFilter(filterIds).Some? ==> (Passes(BuildFilter(filterIds), id) <==> id in BuildFilter(filterIds).value)
  {
    BuildFilterSpec(filterIds);
  }

  // ---------------------------------------------------------------- rows

  /** The Phred score a quality character encodes: its code minus 33. */
  function Phred(q: char): int {
    q as int - 33
  }

  /** The sum of the Phred scores of a quality string. */
  function PhredSum(qual: string): int {
    if qual == [] then 0 else PhredSum(qual[..|qual| - 1]) + Phred(qual[|qual| - 1])
  }

  /** Mean Phred score of a quality string, 0 when it is empty. */
  function AvgQuality(qual: string): real {
    if qual == [] then 0.0 else PhredSum(qual) as real / |qual| as real
  }

  /** A sum of scores within [lo, hi] lies within |qual| times those bounds. */
  lemma {:induction false} PhredSumBounds(qual: string, lo: int, hi: int)
    requires forall i :: 0 <= i < |qual| ==> lo <= Phred(qual[i]) <= hi
    ensures |qual| * lo <= PhredSum(qual) <= |qual| * hi
  {
    if qual != [] {
      PhredSumBounds(qual[..|qual| - 1], lo, hi);
    }
  }

  /** A quotient by a positive divisor is at least b when the dividend is at least n * b. */
  lemma QuotientAtLeast(sum: int, n: int, b: int)
    requires n > 0 && sum >= n * b
    ensures sum as real / n as real >= b as real
  {
    var q := sum as real / n as real;
    assert q * n as real == sum as real;
  }

  /** A quotient by a positive divisor is at most b when the dividend is at most n * b. */
  lemma QuotientAtMost(sum: int, n: int, b: int)
    requires n > 0 && sum <= n * b
    ensures sum as real / n as real <= b as real
  {
    var q := sum as real / n as real;
    assert q * n as real == sum as real;
  }

  /** The mean quality lies between any lower and upper bound of the scores. */
  lemma AvgQualityBounds(qual: string, lo: int, hi: int)
    requires qual != []
    requires forall i :: 0 <= i < |qual| ==> lo <= Phred(qual[i]) <= hi
    ensures lo as real <= AvgQuality(qual) <= hi as real
  {
    PhredSumBounds(qual, lo, hi);
    QuotientAtLeast(PhredSum(qual), |qual|, lo);
    QuotientAtMost(PhredSum(qual), |qual|, hi);
  }

  /** The row of a FASTA-like record. */
  function FastaRow(rec: SeqRecord): Row {
    Row(rec.id, |rec.sequence|, GcContent(rec.sequence), None)
  }

  /** The FASTQ title has a first token to serve as the record ID. */
  predicate HasRecordId(rec: FastqRecord) {
    FirstToken(rec.title).Some?
  }

  /** Every read has a record ID. */
  predicate AllHaveIds(rs: seq<FastqRecord>) {
    forall i :: 0 <= i < |rs| ==> HasRecordId(rs[i])
  }

  /**
   * The row of a FASTQ read: ID from the title's first token, plus mean
   * quality; None where the title has no token.
   */
  function FastqRow(rec: FastqRecord): Option<Row> {
    match FirstToken(rec.title)
    case None => None
    case Some(id) => Some(Row(id, |rec.sequence|, GcContent(rec.sequence), Some(AvgQuality(rec.quality))))
  }

  /** One row per record, in encounter order, before filtering. */
  function FastaRows(records: seq<SeqRecord>): seq<Row> {
    seq(|records|, i requires 0 <= i < |records| => FastaRow(records[i]))
  }

  /** All the rows when every entry has one, otherwise None. */
  function AllRows(os: seq<Option<Row>>): Option<seq<Row>> {
    if os == [] then Some([])
    else
      match (AllRows(os[..|os| - 1]), os[|os| - 1])
      case (Some(rows), Some(row)) => Some(rows + [row])
      case _ => None
  }

  /** Each read's row, or None for a read without a record ID. */
  function FastqRowOptions(rs: seq<FastqRecord>): seq<Option<Row>> {
    seq(|rs|, i requires 0 <= i < |rs| => FastqRow(rs[i]))
  }

  /**
   * One row per read, in encounter order, before filtering; None when some
   * read has no record ID.
   */
  function FastqRows(rs: seq<FastqRecord>): Option<seq<Row>> {
    AllRows(FastqRowOptions(rs))
  }

  /** The rows that pass the filter, in their original order. */
  function Kept(rows: seq<Row>, wanted: Option<set<string>>): seq<Row> {
    if rows == [] then []
    else
      var last := rows[|rows| - 1];
      Kept(rows[..|rows| - 1], wanted) + (if Passes(wanted, last.id) then [last] else [])
  }

  /** Sum of the rows' lengths. */
  function TotalLength(rows: seq<Row>): nat {
    if rows == [] then 0 else TotalLength(rows[..|rows| - 1]) + rows[|rows| - 1].length
  }

  /** Sum of the rows' GC ratios (not weighted by length). */
  function TotalGc(rows: seq<Row>): real {
    if rows == [] then 0.0 else TotalGc(rows[..|rows| - 1]) + rows[|rows| - 1].gcContent
  }

  /** The result built from the kept rows, with both averages guarded against a zero count. */
  function Summarize(filename: string, format: Format, compression: Compression,
                     rows: seq<Row>, filtered: bool, statsOnly: bool): ProcessingResult
  {
    var n := |rows|;
    ProcessingResult(
      filename, format, compression, n, TotalLength(rows),
      if n > 0 then TotalLength(rows) as real / n as real else 0.0,
      if n > 0 then TotalGc(rows) / n as real else 0.0,
      filtered,
      if statsOnly then None else Some(rows))
  }

  // ---------------------------------------------------------------- loop steps

  /**
   * Appending a row to the list appends it to the kept rows exactly when it
   * passes, and the count and sums grow by that row.
   */
  lemma KeptSnoc(rows: seq<Row>, row: Row, wanted: Option<set<string>>)
    ensures Passes(wanted, row.id) ==>
      var k := Kept(rows, wanted);
      Kept(rows + [row], wanted) == k + [row] &&
      TotalLength(k + [row]) == TotalLength(k) + row.length &&
      TotalGc(k + [row]) == TotalGc(k) + row.gcContent
    ensures !Passes(wanted, row.id) ==> Kept(rows + [row], wanted) == Kept(rows, wanted)
  {
    assert (rows + [row])[..|rows|] == rows;
    var k := Kept(rows, wanted);
    assert (k + [row])[..|k|] == k;
  }

  /** The FASTA-like loop's rows for one more record. */
  lemma FastaStep(records: seq<SeqRecord>, i: nat)
    requires i < |records|
    ensures FastaRows(records[..i + 1]) == FastaRows(records[..i]) + [FastaRow(records[i])]
  {
  }

  /** The rows of one more entry: extended by its row, or gone when it has none. */
  lemma AllRowsStep(os: seq<Option<Row>>, i: nat, rows: seq<Row>)
    requires i < |os| && AllRows(os[..i]) == Some(rows)
    ensures os[i].None? ==> AllRows(os[..i + 1]).None?
    ensures os[i].Some? ==> AllRows(os[..i + 1]) == Some(rows + [os[i].value])
  {
    assert os[..i + 1][..i] == os[..i];
  }

  /** Once a prefix has no rows, neither does any extension of it. */
  lemma {:induction false} AllRowsNoneExtends(os: seq<Option<Row>>, i: nat)
    requires i <= |os| && AllRows(os[..i]).None?
    ensures AllRows(os).None?
  {
    if i < |os| {
      assert os[..|os| - 1][..i] == os[..i];
      AllRowsNoneExtends(os[..|os| - 1], i);
    } else {
      assert os[..i] == os;
    }
  }

  // ---------------------------------------------------------------- the loops

  /** `_process_fasta_like`: one pass over the parsed records. */
  method ProcessFastaLike(records: seq<SeqRecord>, format: Format, wanted: Option<set<string>>,
                          statsOnly: bool, filename: string, compression: Compression)
    returns (result: ProcessingResult)
    ensures result == Summarize(filename, format, compression, Kept(FastaRows(records), wanted), Truthy(wanted), statsOnly)
  {
    var totalLen: nat := 0;
    var totalGc: real := 0.0;
    var count: nat := 0;
    var sequences: seq<Row> := [];
    ghost var rows: seq<Row> := [];
    ghost var kept: seq<Row> := [];
    for i := 0 to |records|
      invariant rows == FastaRows(records[..i]) && kept == Kept(rows, wanted)
      invariant count == |kept| && totalLen == TotalLength(kept) && totalGc == TotalGc(kept)
      invariant sequences == if statsOnly then [] else kept
    {
      var record := records[i];
      FastaStep(records, i);
      KeptSnoc(rows, FastaRow(record), wanted);
      rows := rows + [FastaRow(record)];
      if Truthy(wanted) && record.id !in wanted.value {
        continue;
      }
      var sequence := record.sequence;
      var gc := GcContent(sequence);
      totalLen := totalLen + |sequence|;
      totalGc := totalGc + gc;
      count := count + 1;
      if !statsOnly {
        sequences := sequences + [Row(record.id, |sequence|, gc, None)];
      }
      kept := kept + [FastaRow(record)];
    }
    assert records[..|records|] == records;
    result := ProcessingResult(
      filename, format, compression, count, totalLen,
      if count > 0 then totalLen as real / count as real else 0.0,
      if count > 0 then totalGc / count as real else 0.0,
      Truthy(wanted),
      None);
    if !statsOnly {
      result := result.(sequences := Some(sequences));
    }
  }

  /**
   * `_process_fastq`: one pass over the reads. It fails, with no partial
   * result, exactly when some read's title has no token.
   */
  method ProcessFastq(rs: seq<FastqRecord>, wanted: Option<set<string>>,
                      statsOnly: bool, filename: string, compression: Compression)
    returns (r: Result<ProcessingResult, PipelineError>)
    ensures r.Err? <==> FastqRows(rs).None?
    ensures r.Err? ==> r.error == EmptyFastqTitle
    ensures r.Ok? ==>
      FastqRows(rs).Some? &&
      r.value == Summarize(filename, Fastq, compression, Kept(FastqRows(rs).value, wanted), Truthy(wanted), statsOnly)
  {
    var totalLen: nat := 0;
    var totalGc: real := 0.0;
    var totalReads: nat := 0;
    var sequences: seq<Row> := [];
    ghost var opts := FastqRowOptions(rs);
    ghost var rows: seq<Row> := [];
    ghost var kept: seq<Row> := [];
    for i := 0 to |rs|
      invariant AllRows(opts[..i]) == Some(rows) && kept == Kept(rows, wanted)
      invariant totalReads == |kept| && totalLen == TotalLength(kept) && totalGc == TotalGc(kept)
      invariant sequences == if statsOnly then [] else kept
    {
      var read := rs[i];
      AllRowsStep(opts, i, rows);
      var recordId := FirstToken(read.title);
      if recordId.None? {
        assert FastqRows(rs).None? by {
          AllRowsNoneExtends(opts, i + 1);
        }
        return Err(EmptyFastqTitle);
      }
      ghost var row := opts[i].value;
      assert row == Row(recordId.value, |read.sequence|, GcContent(read.sequence), Some(AvgQuality(read.quality)));
      KeptSnoc(rows, row, wanted);
      rows := rows + [row];
      if Truthy(wanted) && recordId.value !in wanted.value {
        continue;
      }
      var gc := GcContent(read.sequence);
      var avgQ := AvgQuality(read.quality);
      totalLen := totalLen + |read.sequence|;
      totalGc := totalGc + gc;
      totalReads := totalReads + 1;
      if !statsOnly {
        sequences := sequences + [Row(recordId.value, |read.sequence|, gc, Some(avgQ))];
      }
      kept := kept + [row];
    }
    assert FastqRows(rs) == Some(rows) by {
      assert opts[..|rs|] == opts;
    }
    var result := ProcessingResult(
      filename, Fastq, compression, totalReads, totalLen,
      if totalReads > 0 then totalLen as real / totalReads as real else 0.0,
      if totalReads > 0 then totalGc / totalReads as real else 0.0,
      Truthy(wanted),
      None);
    if !statsOnly {
      result := result.(sequences := Some(sequences));
    }
    r := Ok(result);
  }

  /**
   * `process_uploaded_file`: detect compression and format, build the
   * filter, and run the FASTQ loop for FASTQ and the FASTA-like loop for the
   * other three formats.
   */
  method ProcessUploadedFile(parsed: ParsedContent, filename: string, filterIds: Option<string> := None, statsOnly: bool := true)
    returns (r: Result<ProcessingResult, PipelineError>)
    ensures FileFormatOf(filename).Err? <==> r == Err(UnsupportedFileFormat)
    ensures FileFormatOf(filename) == Ok(Fastq) ==> (r.Err? <==> FastqRows(parsed.fastqReads).None?)
    ensures FileFormatOf(filename).Ok? && FileFormatOf(filename) != Ok(Fastq) ==> r.Ok?
    ensures r.Ok? ==>
      FileFormatOf(filename) == Ok(r.value.format) &&
      r.value.filename == filename &&
      r.value.compression == DetectCompression(filename) &&
      r.value.filtered == BuildFilter(filterIds).Some?
    ensures r.Ok? && r.value.format == Fastq ==>
      FastqRows(parsed.fastqReads).Some? &&
      r.value == Summarize(filename, Fastq, DetectCompression(filename),
                           Kept(FastqRows(parsed.fastqReads).value, BuildFilter(filterIds)),
                           BuildFilter(filterIds).Some?, statsOnly)
    ensures r.Ok? && r.value.format != Fastq ==>
      r.value == Summarize(filename, r.value.format, DetectCompression(filename),
                           Kept(FastaRows(parsed.records), BuildFilter(filterIds)),
                           BuildFilter(filterIds).Some?, statsOnly)
  {
    var compression := DetectCompression(filename);
    var fileFormat := DetectFileFormat(filename);
    if fileFormat.Err? {
      return Err(UnsupportedFileFormat);
    }
    var wanted: Option<set<string>> := None;
    if filterIds.Some? && filterIds.value != "" {
      wanted := Some(set p | p in Split(filterIds.value, ',') :: Strip(p));
    }
    BuildFilterSpec(filterIds);
    if fileFormat.value == Fastq {
      r := ProcessFastq(parsed.fastqReads, wanted, statsOnly, filename, compression);
    } else {
      var result := ProcessFastaLike(parsed.records, fileFormat.value, wanted, statsOnly, filename, compression);
      r := Ok(result);
    }
  }

  // ---------------------------------------------------------------- properties

  /** Filtering distributes over concatenation, so the kept rows stay in encounter order. */
  lemma {:induction false} KeptConcat(a: seq<Row>, b: seq<Row>, wanted: Option<set<string>>)
    ensures Kept(a + b, wanted) == Kept(a, wanted) + Kept(b, wanted)
  {
    if b == [] {
      assert a + b == a;
    } else {
      var b' := b[..|b| - 1];
      assert (a + b)[..|a + b| - 1] == a + b';
      KeptConcat(a, b', wanted);
    }
  }

  /** A row is kept exactly when it is one of the rows and passes the filter. */
  lemma {:induction false} KeptMembers(rows: seq<Row>, wanted: Option<set<string>>, row: Row)
    ensures row in Kept(rows, wanted) <==> row in rows && Passes(wanted, row.id)
  {
    if rows != [] {
      var init := rows[..|rows| - 1];
      KeptMembers(init, wanted, row);
      assert rows == init + [rows[|rows| - 1]];
    }
  }

  /** With an active filter, every kept ID is one of the wanted IDs. */
  lemma KeptIdsWanted(rows: seq<Row>, wanted: Option<set<string>>)
    requires Truthy(wanted)
    ensures forall row :: row in Kept(rows, wanted) ==> row.id in wanted.value
  {
    forall row | row in Kept(rows, wanted)
      ensures row.id in wanted.value
    {
      KeptMembers(rows, wanted, row);
    }
  }

  /** Without an active filter, every row is kept. */
  lemma {:induction false} KeptUnfiltered(rows: seq<Row>, wanted: Option<set<string>>)
    requires !Truthy(wanted)
    ensures Kept(rows, wanted) == rows
  {
    if rows != [] {
      KeptUnfiltered(rows[..|rows| - 1], wanted);
    }
  }

  /** Filtering never adds rows. */
  lemma {:induction false} KeptLength(rows: seq<Row>, wanted: Option<set<string>>)
    ensures |Kept(rows, wanted)| <= |rows|
  {
    if rows != [] {
      KeptLength(rows[..|rows| - 1], wanted);
    }
  }

  /**
   * The rows exist exactly when every entry has one, and then they are the
   * entries' rows, one for one.
   */
  lemma {:induction false} AllRowsSpec(os: seq<Option<Row>>)
    ensures AllRows(os).Some? <==> forall k :: 0 <= k < |os| ==> os[k].Some?
    ensures AllRows(os).Some? ==>
      |AllRows(os).value| == |os| && forall k :: 0 <= k < |os| ==> AllRows(os).value[k] == os[k].value
  {
    if os != [] {
      var init := os[..|os| - 1];
      AllRowsSpec(init);
      assert forall k :: 0 <= k < |init| ==> init[k] == os[k];
    }
  }

  /**
   * A read has a row exactly when it has a record ID, and the row holds the
   * title's first token, the sequence's length and GC ratio, and the mean
   * quality.
   */
  lemma FastqRowSpec(rec: FastqRecord)
    ensures FastqRow(rec).Some? <==> HasRecordId(rec)
    ensures HasRecordId(rec) ==>
      FastqRow(rec).value == Row(FirstToken(rec.title).value, |rec.sequence|, GcContent(rec.sequence), Some(AvgQuality(rec.quality)))
  {
  }

  /**
   * The FASTQ rows exist exactly when every read has a record ID; then row k
   * is the row of read k.
   */
  lemma FastqRowsSpec(rs: seq<FastqRecord>)
    ensures FastqRows(rs).Some? <==> AllHaveIds(rs)
    ensures FastqRows(rs).Some? ==>
      |FastqRows(rs).value| == |rs| &&
      forall k :: 0 <= k < |rs| ==> Some(FastqRows(rs).value[k]) == FastqRow(rs[k])
  {
    var os := FastqRowOptions(rs);
    AllRowsSpec(os);
    forall k | 0 <= k < |rs|
      ensures os[k] == FastqRow(rs[k]) && (os[k].Some? <==> HasRecordId(rs[k]))
    {
      FastqRowSpec(rs[k]);
    }
  }

  /**
   * One row belongs to each record, in order: its ID, its sequence length,
   * its GC ratio and no quality.
   */
  lemma FastaRowsSpec(records: seq<SeqRecord>)
    ensures |FastaRows(records)| == |records|
    ensures forall k :: 0 <= k < |records| ==>
      FastaRows(records)[k].id == records[k].id &&
      FastaRows(records)[k].length == |records[k].sequence| &&
      FastaRows(records)[k].gcContent == GcContent(records[k].sequence) &&
      FastaRows(records)[k].avgQuality.None?
  {
  }

  /** Sum of the lengths distributes over concatenation. */
  lemma {:induction false} TotalLengthConcat(a: seq<Row>, b: seq<Row>)
    ensures TotalLength(a + b) == TotalLength(a) + TotalLength(b)
  {
    if b == [] {
      assert a + b == a;
    } else {
      var b' := b[..|b| - 1];
      assert (a + b)[..|a + b| - 1] == a + b';
      TotalLengthConcat(a, b');
    }
  }

  /** Every row's GC ratio lies in [0, 1]. */
  predicate GcRatios(rows: seq<Row>) {
    forall k :: 0 <= k < |rows| ==> 0.0 <= rows[k].gcContent <= 1.0
  }

  /** The GC sum of rows whose ratios lie in [0, 1] lies in [0, |rows|]. */
  lemma {:induction false} TotalGcBounds(rows: seq<Row>)
    requires GcRatios(rows)
    ensures 0.0 <= TotalGc(rows) <= |rows| as real
  {
    if rows != [] {
      TotalGcBounds(rows[..|rows| - 1]);
    }
  }

  /** Kept rows keep their GC ratios in [0, 1]. */
  lemma KeptGcRatios(rows: seq<Row>, wanted: Option<set<string>>)
    requires GcRatios(rows)
    ensures GcRatios(Kept(rows, wanted))
  {
    var kept := Kept(rows, wanted);
    forall k | 0 <= k < |kept|
      ensures 0.0 <= kept[k].gcContent <= 1.0
    {
      KeptMembers(rows, wanted, kept[k]);
    }
  }

  /** Rows built from records carry GC ratios from GcContent, so in [0, 1]. */
  lemma BuiltRowsGcRatios(records: seq<SeqRecord>, rs: seq<FastqRecord>)
    ensures GcRatios(FastaRows(records))
    ensures FastqRows(rs).Some? ==> GcRatios(FastqRows(rs).value)
  {
    FastqRowsSpec(rs);
  }

  /**
   * The summary counts the rows and sums their lengths, is all zeros for no
   * rows, and holds the rows themselves unless only statistics were asked for.
   */
  lemma SummarizeShape(filename: string, format: Format, compression: Compression,
                       rows: seq<Row>, filtered: bool, statsOnly: bool)
    ensures
      var r := Summarize(filename, format, compression, rows, filtered, statsOnly);
      r.totalSequences == |rows| && r.totalBases == TotalLength(rows) &&
      (rows == [] ==> r.totalBases == 0 && r.averageLength == 0.0 && r.averageGcContent == 0.0) &&
      (r.sequences.None? <==> statsOnly) &&
      (r.sequences.Some? ==> r.sequences.value == rows)
  {
  }

  /** For some rows, the average length times the count gives the total bases. */
  lemma AverageLengthTimesCount(filename: string, format: Format, compression: Compression,
                                rows: seq<Row>, filtered: bool, statsOnly: bool)
    requires rows != []
    ensures
      var r := Summarize(filename, format, compression, rows, filtered, statsOnly);
      r.averageLength * r.totalSequences as real == r.totalBases as real
  {
  }

  /** The average GC ratio lies in [0, 1] when every row's does. */
  lemma AverageGcBounded(filename: string, format: Format, compression: Compression,
                         rows: seq<Row>, filtered: bool, statsOnly: bool)
    requires GcRatios(rows)
    ensures 0.0 <= Summarize(filename, format, compression, rows, filtered, statsOnly).averageGcContent <= 1.0
  {
    if rows != [] {
      TotalGcBounds(rows);
      var n := |rows| as real;
      assert TotalGc(rows) / n <= 1.0 by {
        assert (TotalGc(rows) / n) * n == TotalGc(rows);
      }
    }
  }

  /** Asking only for statistics drops the per-record rows and changes nothing else. */
  lemma StatsOnlyDropsRows(filename: string, format: Format, compression: Compression,
                           rows: seq<Row>, filtered: bool)
    ensures Summarize(filename, format, compression, rows, filtered, true) ==
      Summarize(filename, format, compression, rows, filtered, false).(sequences := None)
  {
  }

  /**
   * The average GC ratio is per record, not per base: unfiltered records "G"
   * (ratio 1) and "ATA" (ratio 0) average to 0.5, where the share of G and C
   * among all four bases would be 0.25.
   */
  lemma AverageGcIsPerRecord()
    ensures
      var records := [SeqRecord("x", "G"), SeqRecord("y", "ATA")];
      Summarize("f", Fasta, Uncompressed, Kept(FastaRows(records), None), false, true).averageGcContent == 0.5
  {
    var records := [SeqRecord("x", "G"), SeqRecord("y", "ATA")];
    assert Upper("G") == "G";
    assert CountBases("G") == BaseCounts(0, 0, 1, 0);
    assert Upper("ATA") == "ATA";
    assert CountBases("ATA") == BaseCounts(2, 1, 0, 0);
    var rows := FastaRows(records);
    assert rows == [Row("x", 1, 1.0, None), Row("y", 3, 0.0, None)];
    KeptUnfiltered(rows, None);
    var first := [Row("x", 1, 1.0, None)];
    assert rows[..1] == first;
    assert first[..0] == [];
    assert TotalGc(first) == 1.0;
    assert TotalGc(rows) == 1.0;
  }

  /**
   * End to end, for any record list: the result counts at most the records
   * given, all of them when no filter is active, and its average GC ratio
   * lies in [0, 1].
   */
  lemma FastaLikeResult(records: seq<SeqRecord>, format: Format, wanted: Option<set<string>>,
                        statsOnly: bool, filename: string, compression: Compression)
    ensures
      var r := Summarize(filename, format, compression, Kept(FastaRows(records), wanted), Truthy(wanted), statsOnly);
      r.totalSequences <= |records| &&
      0.0 <= r.averageGcContent <= 1.0 &&
      (!Truthy(wanted) ==> r.totalSequences == |records|)
  {
    var rows := FastaRows(records);
    BuiltRowsGcRatios(records, []);
    KeptGcRatios(rows, wanted);
    KeptLength(rows, wanted);
    AverageGcBounded(filename, format, compression, Kept(rows, wanted), Truthy(wanted), statsOnly);
    if !Truthy(wanted) {
      KeptUnfiltered(rows, wanted);
    }
  }

  /**
   * Filter text written as comma-joined IDs (each free of commas) admits
   * exactly those IDs stripped; an empty part, as after a trailing comma,
   * admits the empty ID. So "a, b,", which is the join of "a", " b" and "",
   * admits exactly "a", "b" and "".
   */
  lemma FilterOfJoin(parts: seq<string>)
    requires |parts| >= 1
    requires forall i :: 0 <= i < |parts| ==> ',' !in parts[i]
    requires Join(parts, ',') != ""
    ensures BuildFilter(Some(Join(parts, ','))) == Some(set p | p in parts :: Strip(p))
  {
    SplitJoin(parts, ',');
  }
}
