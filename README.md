# GenesisQC processing core in Dafny

GenesisQC is a browser tool for quality checks on biological sequence files. A
user uploads a FASTA, FASTQ, GenBank or EMBL file, optionally gzip- or
bzip2-compressed. The tool reports per-sequence and aggregate statistics:
length, GC content and, for FASTQ, the mean Phred quality.

This project models the part of the tool that turns an upload into its
statistics:

- **Detection** (`file_utils.dfy`, module `FileUtils`). The compression kind
  and the file format are read from the lower-cased filename alone.
  - `DetectCompression` is the pure suffix test.
  - `DetectFileFormat` is a method with the same loop as the program. It
    strips each compression suffix, in a fixed order and at most once, and
    then looks the rest up in the format table. Its result is an
    `Ok(format)` or an `Err(UnsupportedFormat)`.
  - `FileFormatOf` is the value the method computes. The lemmas are stated
    about it.
- **GC content** (`sequence_analysis.dfy`, module `SequenceAnalysis`).
  `GcContent` is the ratio (G + C) / (A + T + G + C), or 0 when none of the
  four bases occurs. The counts are taken after upper-casing. The ratio is an
  exact `real`.
- **Record aggregation** (`pipeline.dfy`, module `Pipeline`).
  - `ProcessUploadedFile` runs detection and builds the optional ID
    allow-list from comma-separated text. It then dispatches to one of two
    loops: `ProcessFastq` over (title, sequence, quality) reads, or
    `ProcessFastaLike` over (id, sequence) records.
  - Each loop is proved against a specification function of its input.
    - `FastaRows` and `FastqRows` build one row per record.
    - `Kept` keeps, in order, the rows whose ID passes the filter.
    - `Summarize` builds the result record, with both averages guarded
      against a zero count.
  - The parser's output is an input to these methods: the `FastqRecord` and
    `SeqRecord` sequences.
- **String helpers** (`pystr.dfy`, module `PyStr`). These are the ASCII
  behaviour of the Python string operations the core uses. They cover
  `lower`, `upper`, `endswith`, `strip`, `split(",")` and the first token of
  `split(None, 1)`, each with the properties the other modules rely on.
- `wrappers.dfy` holds `Option` and `Result`.

## Model

| member | source | states |
|---|---|---|
| FileUtils.DetectCompression | file_utils.py:5-11 | the suffix test on the lower-cased name; no ensures of its own: CompressionMatchesTable states it against the suffix table, both directions |
| FileUtils.StripSuffix | file_utils.py:18-19 | `name[:-len(ext)]` when the name ends with ext (the empty string for an empty ext, as in Python); its ensures state only that the result is a prefix; StripAppended states what it removes |
| FileUtils.StripAll | file_utils.py:17-19 | the stripping loop as a left fold over the suffix list; its ensures state only that the result is a prefix; StripAllUnchanged, StripAllOne and StripCompressionUnrolled state what it removes |
| FileUtils.FormatOfStripped | file_utils.py:21-30 | the format table lookup with its error; no ensures of its own: FormatSound, FormatComplete and FormatMatchesTable state it |
| FileUtils.FileFormatOf | file_utils.py:14-30 | lower-case, strip, look up; no ensures of its own: DetectFileFormat is proved equal to it, and the FileUtils lemmas state its properties |
| FileUtils.CompressionMatchesTable | file_utils.py:5-11 | for gzip and bzip2 the result is that kind iff the lower-cased name ends with one of its table suffixes (".gz"/".gzip", ".bz2"/".bzip2"); the result is "none" iff it ends with no table suffix; the function is total, so it never fails |
| FileUtils.UncompressedIffNothingStripped | file_utils.py:5-19 | a name is detected as uncompressed exactly when the format detector's stripping loop leaves its lower-cased form unchanged |
| FileUtils.DetectionIgnoresCase | file_utils.py:6 | both detectors give the same answer for a name, its lower-cased form and its upper-cased form |
| FileUtils.StripAppended | file_utils.py:18-19 | removing a suffix that was appended gives back the original name |
| FileUtils.DetectFileFormat | file_utils.py:14-30 | the loop over ".gz", ".gzip", ".bz2", ".bzip2" computes exactly FileFormatOf (lower-case, strip each suffix once in that order, look up the format table) |
| FileUtils.StripAllUnchanged | file_utils.py:17-19 | the stripping loop leaves a name unchanged iff the name ends with none of the suffixes |
| FileUtils.StripCompressionUnrolled | file_utils.py:17-19 | the loop is the four single strips applied one after another in table order |
| FileUtils.StripAllOne | file_utils.py:17-19 | when exactly one suffix matches and nothing matches after it is removed, only that one suffix is stripped |
| FileUtils.FormatSound | file_utils.py:21-28 | an Ok(format) answer is backed by a table suffix for that format |
| FileUtils.FormatComplete | file_utils.py:21-28 | a name ending with the i-th table suffix is detected as that entry's format |
| FileUtils.FormatMatchesTable | file_utils.py:21-30 | the lookup gives Ok(f) iff the name ends with a table suffix for f; it gives Err(UnsupportedFormat) iff the name ends with no table suffix, so every answer is one of the four formats or the single error |
| FileUtils.FormatOfUncompressed | file_utils.py:14-30 | for a name without a compression suffix, detection is the table lookup on the lower-cased name |
| FileUtils.AppendCompressionSuffix | file_utils.py:5-28 | appending ".gz", ".gzip", ".bz2" or ".bzip2" to a name without a compression suffix keeps the detected format (or the error) and sets the compression to the appended kind |
| FileUtils.Bz2ThenGzBothStripped | file_utils.py:17-19 | for a name n with no compression suffix, "n.bz2.gz" has the format of n, because ".gz" is stripped before ".bz2" |
| FileUtils.GzThenBz2Unsupported | file_utils.py:17-30 | "n.gz.bz2" is unsupported for every n: after ".bz2" is removed, ".gz" has already been checked |
| FileUtils.DoubleGzUnsupported | file_utils.py:17-30 | "n.gz.gz" is unsupported for every n: ".gz" is removed only once |
| FileUtils.ReadsFqIsFastq | file_utils.py:5-24 | "reads.fq" is uncompressed and fastq |
| FileUtils.TxtIsUnsupported | file_utils.py:14-30 | "x.txt" is uncompressed and its format is unsupported |
| FileUtils.SampleFastaGzIsGzippedFasta | file_utils.py:5-22 | "sample.fasta.gz" is gzip-compressed and fasta |
| SequenceAnalysis.Count | sequence_analysis.py:5-10 | the entry `counts.get(c, 0)`; no ensures of its own: CountConcat and CountUpper state it |
| SequenceAnalysis.CountBases | sequence_analysis.py:4-10 | the four counts over the upper-cased sequence; no ensures of its own: CountBasesConcat and NoBasesCountZero state it |
| SequenceAnalysis.GcContent | sequence_analysis.py:3-16 | the ratio lies in [0, 1]; it is 0 iff the upper-cased sequence has no G or C (this includes a sequence with no base at all); it is 1 iff there is a base and none of them is A or T |
| SequenceAnalysis.GcOfMixedCase | sequence_analysis.py:4-16 | the ratio equals (G + g + C + c) over all eight upper and lower base letters of the original sequence, or 0 when none occurs |
| SequenceAnalysis.GcIgnoresCase | sequence_analysis.py:4 | the ratio of a sequence equals that of its upper-cased and of its lower-cased form |
| SequenceAnalysis.NoBasesCountZero | sequence_analysis.py:5-10 | a string with none of the four bases in either case contributes no count |
| SequenceAnalysis.CountBasesConcat | sequence_analysis.py:5-10 | the four counts of a concatenation are the sums of the parts' counts |
| SequenceAnalysis.GcIgnoresNonBases | sequence_analysis.py:7-12 | inserting any run of non-base characters (N, gaps, digits) at any position leaves the ratio unchanged |
| SequenceAnalysis.GcWithoutBases | sequence_analysis.py:12-14 | a sequence without any of the four bases, the empty one included, has ratio 0 |
| SequenceAnalysis.GcAllStrong | sequence_analysis.py:16 | a sequence with some G or C and no A or T has ratio 1 |
| SequenceAnalysis.GcOfEmpty | sequence_analysis.py:13-14 | "" has ratio 0 |
| SequenceAnalysis.GcOfGC | sequence_analysis.py:16 | "GC" has ratio 1 |
| SequenceAnalysis.GcOfATAT | sequence_analysis.py:16 | "ATAT" has ratio 0 |
| SequenceAnalysis.GcOfATGC | sequence_analysis.py:4-16 | "ATGC" has ratio 1/2, and so does "atgcNN" |
| SequenceAnalysis.CountConcat | sequence_analysis.py:5 | a character's count in a concatenation is the sum of its counts in the parts |
| SequenceAnalysis.CountUpper | sequence_analysis.py:4-5 | after upper-casing, a capital letter counts its own occurrences plus those of its small form |
| PyStr.Lower | file_utils.py:6 | ASCII `str.lower()`; no ensures of its own: LowerIdempotent, LowerOfUpper and CaseMapsConcat state it |
| PyStr.Upper | sequence_analysis.py:4 | ASCII `str.upper()`; no ensures of its own: UpperIdempotent, UpperOfLower and CaseMapsConcat state it |
| PyStr.EndsWith | file_utils.py:7 | `str.endswith` for one suffix; no ensures of its own: EndsWithAppended states it |
| PyStr.IsSpace | pipeline.py:40 | the ASCII characters `str.isspace` accepts; no ensures of its own |
| PyStr.Join | pipeline.py:19 | the inverse of `split(",")`, used only to state JoinSplit and SplitJoin; no ensures of its own |
| PyStr.FirstToken | pipeline.py:40 | `title.split(None, 1)[0]`, None where that raises; no ensures of its own: FirstTokenNone and FirstTokenSome state it |
| PyStr.LowerIdempotent | file_utils.py:6 | lower-casing twice is lower-casing once |
| PyStr.UpperIdempotent | sequence_analysis.py:4 | upper-casing twice is upper-casing once |
| PyStr.LowerOfUpper | file_utils.py:15 | lower-casing after upper-casing is plain lower-casing |
| PyStr.UpperOfLower | sequence_analysis.py:4 | upper-casing after lower-casing is plain upper-casing |
| PyStr.CaseMapsConcat | file_utils.py:6 | both case maps distribute over concatenation |
| PyStr.EndsWithAppended | file_utils.py:7-9 | s + t ends with t |
| PyStr.LStrip | pipeline.py:40 | the result is a suffix of the input, everything before it is whitespace, and it is empty or starts with a non-space |
| PyStr.RStrip | pipeline.py:19 | the result is a prefix of the input, everything after it is whitespace, and it is empty or ends with a non-space |
| PyStr.Strip | pipeline.py:19 | the result neither starts nor ends with whitespace |
| PyStr.StripInfix | pipeline.py:19 | the stripped text is the piece of the input right after its leading whitespace |
| PyStr.StripTrailing | pipeline.py:19 | everything after that piece is whitespace |
| PyStr.StripUntrimmed | pipeline.py:19 | text with no whitespace at either end is left unchanged |
| PyStr.StripLeadingSpace | pipeline.py:19 | a leading whitespace character does not change the stripped text |
| PyStr.StripIdempotent | pipeline.py:19 | stripping twice is stripping once |
| PyStr.Split | pipeline.py:19 | splitting gives at least one part, and no part contains the separator |
| PyStr.JoinSplit | pipeline.py:19 | joining the parts with the separator gives back the text |
| PyStr.SplitJoin | pipeline.py:19 | splitting a join of separator-free parts gives back the parts |
| PyStr.TakeWord | pipeline.py:40 | the word is the longest whitespace-free prefix |
| PyStr.FirstTokenNone | pipeline.py:40 | a title has no first token iff it is all whitespace (the empty title included) |
| PyStr.FirstTokenSome | pipeline.py:40 | a first token is non-empty and free of whitespace; only whitespace precedes it, and the end of the title or a whitespace character follows it |
| Pipeline.FilterTokens | pipeline.py:19 | the set of stripped comma-separated parts; no ensures of its own: FilterTokensNonEmpty, FilterTokensMembers and FilterTokensStripped state it |
| Pipeline.BuildFilter | pipeline.py:17-19 | the optional allow-list; no ensures of its own: BuildFilterSpec and FilterOfJoin state it |
| Pipeline.Truthy | pipeline.py:42 | `bool(wanted_ids)`; no ensures of its own: BuildFilterSpec states that it holds iff a filter was built |
| Pipeline.Passes | pipeline.py:42-43 | the negated `continue` test; no ensures of its own: PassesSpec states it |
| Pipeline.Phred | pipeline.py:46 | `ord(q) - 33`; no ensures of its own |
| Pipeline.PhredSum | pipeline.py:46 | the sum of the Phred values; no ensures of its own: PhredSumBounds states it |
| Pipeline.AvgQuality | pipeline.py:46 | the mean Phred value, 0 for an empty string; no ensures of its own: AvgQualityBounds states it |
| Pipeline.FastaRow | pipeline.py:93-105 | one FASTA-like record's row; no ensures of its own: FastaRowsSpec states it |
| Pipeline.FastqRow | pipeline.py:40-58 | one read's row, None where the title has no token; no ensures of its own: FastqRowSpec states it |
| Pipeline.FastaRows | pipeline.py:88-105 | the rows of all records before filtering; no ensures of its own: FastaRowsSpec states it |
| Pipeline.FastqRows | pipeline.py:38-58 | the rows of all reads before filtering, None if some title has no token; no ensures of its own: FastqRowsSpec states it |
| Pipeline.Kept | pipeline.py:42-43 | the rows that pass the filter, in order; no ensures of its own: KeptMembers, KeptConcat, KeptIdsWanted, KeptUnfiltered and KeptLength state it |
| Pipeline.TotalLength | pipeline.py:48 | the running `total_len`; no ensures of its own: TotalLengthConcat states it |
| Pipeline.TotalGc | pipeline.py:49 | the running `total_gc`; no ensures of its own: TotalGcBounds states it |
| Pipeline.Summarize | pipeline.py:60-74 | the result dictionary (lines 107-121 build the same one); no ensures of its own: SummarizeShape, AverageLengthTimesCount, AverageGcBounded and StatsOnlyDropsRows state it |
| Pipeline.FilterTokensNonEmpty | pipeline.py:19 | the token set built from any text is non-empty, so a built filter is always truthy |
| Pipeline.FilterTokensMembers | pipeline.py:19 | an ID is in the token set iff some comma-separated part strips to it |
| Pipeline.FilterTokensStripped | pipeline.py:19 | every token has no whitespace at either end |
| Pipeline.BuildFilterSpec | pipeline.py:17-19 | the filter is absent iff the text is None or ""; otherwise it is the set of stripped comma-separated parts; a filter is truthy iff it was built |
| Pipeline.FilterOfJoin | pipeline.py:19 | text written as comma-joined parts yields exactly the set of those parts stripped; for "a, b," (parts "a", " b", "") this is {"a", "b", ""} |
| Pipeline.PassesSpec | pipeline.py:42-43 | with no filter every ID passes; with a filter an ID passes iff it is in the set |
| Pipeline.PhredSumBounds | pipeline.py:46 | when each quality character's value (its code minus 33) lies in [lo, hi], the sum lies between length times lo and length times hi |
| Pipeline.AvgQualityBounds | pipeline.py:46 | the mean quality of a non-empty string lies between the least and the greatest per-character value |
| Pipeline.ProcessFastaLike | pipeline.py:79-123 | the loop's result is Summarize of the passing records' rows in encounter order, with filtered set from the filter's truthiness and the rows dropped in stats-only mode |
| Pipeline.ProcessFastq | pipeline.py:30-76 | the loop fails with EmptyFastqTitle iff some read's title has no first token; otherwise its result is Summarize of the passing reads' rows (ID, length, GC ratio, mean quality) in encounter order, format fastq |
| Pipeline.ProcessUploadedFile | pipeline.py:8-27 | the filter text defaults to None and stats-only mode to true, as in the signature; an unsupported filename gives UnsupportedFileFormat; a fastq name gives the FASTQ branch and fails only as that branch does; any other format always succeeds through the FASTA-like branch; a result echoes the filename, the detected format and compression, and filtered is whether a filter was built |
| Pipeline.KeptConcat | pipeline.py:42-58 | filtering the rows of two record runs in turn equals filtering them together, so order is preserved |
| Pipeline.KeptMembers | pipeline.py:42-43 | a row is kept iff it is one of the rows and its ID passes the filter |
| Pipeline.KeptIdsWanted | pipeline.py:90-105 | with an active filter every kept row's ID is in the filter set |
| Pipeline.KeptUnfiltered | pipeline.py:42-43 | with no active filter every row is kept, in order |
| Pipeline.KeptLength | pipeline.py:90-98 | at most as many rows are kept as there are records |
| Pipeline.AllRowsSpec | pipeline.py:38-40 | the row list exists iff every record yields a row, and it then holds those rows in order |
| Pipeline.FastqRowSpec | pipeline.py:40-58 | a read yields a row iff its title has a first token; the row is (that token, the sequence length, its GC ratio, its mean quality) |
| Pipeline.FastqRowsSpec | pipeline.py:38-58 | the FASTQ rows exist iff every title has a first token; then there is one row per read, in order, each that read's row |
| Pipeline.FastaRowsSpec | pipeline.py:88-105 | one row per record, in order: its ID, its sequence length, its GC ratio and no quality |
| Pipeline.TotalLengthConcat | pipeline.py:48 | the total length of two row runs is the sum of their totals |
| Pipeline.TotalGcBounds | pipeline.py:49 | when each row's GC ratio lies in [0, 1], the sum of the ratios lies between 0 and the row count |
| Pipeline.KeptGcRatios | pipeline.py:94-97 | filtering keeps every GC ratio in [0, 1] |
| Pipeline.BuiltRowsGcRatios | pipeline.py:45 | every row built from a read, and likewise from a FASTA-like record (line 94), has its GC ratio in [0, 1] |
| Pipeline.SummarizeShape | pipeline.py:60-74 | total_sequences is the row count and total_bases the sum of lengths; with no rows both averages are 0; sequences is absent iff stats-only, and is otherwise the rows |
| Pipeline.AverageLengthTimesCount | pipeline.py:66-67 | for a non-empty row list, average_length times total_sequences is total_bases (in both branches; lines 113-114 are the same) |
| Pipeline.AverageGcBounded | pipeline.py:68-69 | average_gc_content lies in [0, 1] when every row's ratio does (lines 115-116 are the same) |
| Pipeline.StatsOnlyDropsRows | pipeline.py:73-74 | stats-only mode differs from full mode only by the missing sequences (lines 120-121 are the same) |
| Pipeline.AverageGcIsPerRecord | pipeline.py:68-69 | the GC average is over records, not bases: the unfiltered FASTA records "G" and "ATA", whose rows get ratios 1 and 0 from GcContent, average 0.5, not the 0.25 share of G among their four bases |
| Pipeline.FastaLikeResult | pipeline.py:79-123 | for any records the result counts at most the records given, all of them with no filter, and has its average GC ratio in [0, 1] |

## Left out

- `get_text_handle` (file_utils.py:33-39) is not modelled. Gzip and bzip2 decompression and UTF-8 decoding are external codecs and I/O. The uploaded bytes are replaced by the parser's output, given as `ParsedContent`.
- Parsing (`FastqGeneralIterator`, `SeqIO.parse`) is not modelled. Its records are an input sequence, and its own errors on malformed content are not modelled.
- `round(..., 2)` and float division are not modelled. Both averages and the GC ratio are exact reals, before rounding.
- Python's Unicode case mapping and whitespace are not modelled. Case maps only touch ASCII letters. Whitespace is space, tab, line feed, vertical tab, form feed, carriage return and the codes 28-31.
- `Compression.Name` and `Format.Name` only give the strings the program reports ("none", "gzip", "bzip2", "fasta", …). No property is stated about them.
- ProcessFastq: the program's IndexError on a blank title becomes `Err(EmptyFastqTitle)`. The program takes the ID of every read before the filter test, so a blank title fails the run even when a filter would have skipped that read. The model keeps that order.
- ProcessUploadedFile: the program's ValueError for an unsupported name becomes `Err(UnsupportedFileFormat)`.
- app.py (the upload widgets, the plot cut-off at 50,000 rows, CSV and JSON export) and plotting.py are not part of this model. They are user interface and foreign library calls.
