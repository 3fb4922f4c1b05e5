/** The PDF-to-chunk extractor: the extension gate and artifact naming of
    `convert_pdf_to_text`, the pass-through `clean_text`, the alpha-ratio
    filter, numbering and record building of `convert_text_to_chunks`, and the
    report loop of `pdf_to_chunks`.

    PDF parsing, the text splitter, `str.isalpha` and the file system are
    outside: a PDF is given as its document information and page texts, the
    splitter and the letter test are parameters, and every file the code would
    write is returned as a path with its content. */
module Extraction {
  import opened Outcomes
  import opened Seqs
  import opened PyStr
  import opened Decimal
  import opened Paths

  type Metadata = map<string, string>

  /** The text splitter configured with a chunk size and an overlap: it cuts a
      text into candidate chunks. */
  type Splitter = (string, nat, nat) -> seq<string>

  /** A PDF as the two readers see it: its document information, which is
      `None` when the file has none, and the text of each page in page order. */
  datatype Pdf = Pdf(info: Option<Metadata>, pages: seq<string>)

  /** The PDF files that can be opened, by path. */
  type Library = map<string, Pdf>

  const TextFolder := "text_files"
  const DefaultChunkSize: nat := 512
  const DefaultChunkOverlap: nat := 0
  const DefaultKeepAlpha := true
  const ContentKey := "page_content"
  const ChunkKey := "/Chunk"

  // ---------------------------------------------------------------- convert_pdf_to_text

  /** The gate: the text after the last `.` is exactly `pdf`. */
  predicate IsPdfName(filename: string) {
    LastField(filename, '.') == "pdf"
  }

  const PdfNameTest: string -> bool := f => IsPdfName(f)

  /** The gate admits exactly the names ending in `.pdf` (case-sensitively)
      and the bare name `pdf`. */
  lemma IsPdfNameIff(filename: string)
    ensures IsPdfName(filename) <==> filename == "pdf" || (|filename| >= 4 && filename[|filename| - 4..] == ".pdf")
  {
    LastFieldIs(filename, '.', "pdf");
  }

  /** Name of the text artifact: the base name with every `.pdf` turned into `.txt`. */
  function TextFileName(filename: string): (name: string)
    ensures '/' !in name
  {
    Replace(Basename(filename), ".pdf", ".txt")
  }

  datatype Converted = Converted(path: string, text: string, metadata: Metadata)

  /** The extension gate, then both readers; on success the path of the text
      artifact, the text written to it (the pages one after another) and the
      document information. */
  function ConvertPdfToText(filename: string, textFolder: string, library: Library): (r: Result<Converted>)
    ensures !IsPdfName(filename) <==> r == Fail(NotPdf(filename))
    ensures r.Ok? <==> IsPdfName(filename) && filename in library && library[filename].info.Some?
    ensures IsPdfName(filename) && filename !in library ==> r == Fail(Unreadable(filename))
    ensures IsPdfName(filename) && filename in library && library[filename].info.None?
            ==> r == Fail(NoMetadata(filename))
    ensures r.Ok? ==> filename in library && library[filename].info == Some(r.value.metadata)
    ensures r.Ok? ==> r.value.path == PathJoin(textFolder, TextFileName(filename))
    ensures r.Ok? ==> Basename(r.value.path) == TextFileName(filename)
    ensures r.Ok? ==> |r.value.text| == TotalLength(library[filename].pages)
  {
    if !IsPdfName(filename) then Fail(NotPdf(filename))
    else if filename !in library then Fail(Unreadable(filename))
    else
      var pdf := library[filename];
      match pdf.info
      case None => Fail(NoMetadata(filename))
      case Some(info) =>
        var path := PathJoin(textFolder, TextFileName(filename));
        BasenameOfJoin(textFolder, TextFileName(filename));
        PageTextLength(pdf.pages);
        Ok(Converted(path, Join(pdf.pages, ""), info))
  }

  lemma {:induction false} PageTextLength(pages: seq<string>)
    ensures |Join(pages, "")| == TotalLength(pages)
  {
    if |pages| > 0 {
      JoinLength(pages, "");
    }
  }

  // ---------------------------------------------------------------- clean_text

  /** The cleaning stage hands the text file on unchanged. */
  function CleanText(filename: string): string
  {
    filename
  }

  lemma CleanTextIdentity(filename: string)
    ensures CleanText(filename) == filename
    ensures CleanText(CleanText(filename)) == CleanText(filename)
  {
  }

  // ---------------------------------------------------------------- the alpha filter

  /** Number of characters of `content` that the letter test accepts. */
  function AlphaCount(content: string, isAlpha: char -> bool): (n: nat)
    ensures n <= |content|
  {
    if |content| == 0 then 0
    else (if isAlpha(content[0]) then 1 else 0) + AlphaCount(content[1..], isAlpha)
  }

  /** `alpha_ratio >= 0.7`, multiplied out by the chunk length. */
  predicate MostlyAlpha(content: string, isAlpha: char -> bool) {
    10 * AlphaCount(content, isAlpha) >= 7 * |content|
  }

  function KeepTest(isAlpha: char -> bool): string -> bool {
    content => MostlyAlpha(content, isAlpha)
  }

  /** The multiplied-out test agrees with the ratio of the letter count to the
      length, exact value 0.7 included. */
  lemma AlphaRatioAgrees(content: string, isAlpha: char -> bool)
    requires |content| > 0
    ensures MostlyAlpha(content, isAlpha) <==> (AlphaCount(content, isAlpha) as real) / (|content| as real) >= 0.7
  {
    RatioAgrees(AlphaCount(content, isAlpha), |content|);
  }

  lemma RatioAgrees(a: nat, n: nat)
    requires n > 0
    ensures 10 * a >= 7 * n <==> (a as real) / (n as real) >= 0.7
  {
    var q := (a as real) / (n as real);
    var x := n as real;
    assert a as real == q * x;
    assert (q - 0.7) * x == (a as real) - 0.7 * x;
    assert (10 * a) as real == 10.0 * (a as real);
    assert (7 * n) as real == 7.0 * x;
  }

  /** The selection loop: with the filter on, every candidate's ratio is taken
      in order, and an empty candidate is a division by zero; with it off,
      every candidate is kept. */
  function SelectChunks(docs: seq<string>, keepAlpha: bool, isAlpha: char -> bool): (r: Result<seq<string>>)
    ensures r.Fail? <==> keepAlpha && "" in docs
    ensures r.Fail? ==> r.error == ZeroDivision
    ensures !keepAlpha ==> r == Ok(docs)
    ensures r.Ok? && keepAlpha ==> r.value == Filter(docs, KeepTest(isAlpha))
  {
    if !keepAlpha then Ok(docs)
    else if |docs| == 0 then Ok([])
    else if |docs[0]| == 0 then Fail(ZeroDivision)
    else
      assert docs == [docs[0]] + docs[1..];
      match SelectChunks(docs[1..], keepAlpha, isAlpha)
      case Fail(e) => Fail(e)
      case Ok(rest) => Ok(if MostlyAlpha(docs[0], isAlpha) then [docs[0]] + rest else rest)
  }

  /** What the filter keeps: the candidates with enough letters, all of them,
      in their original order. */
  lemma SelectedChunks(docs: seq<string>, keepAlpha: bool, isAlpha: char -> bool)
    requires SelectChunks(docs, keepAlpha, isAlpha).Ok?
    ensures var kept := SelectChunks(docs, keepAlpha, isAlpha).value;
      && IsSubseq(kept, docs)
      && (keepAlpha ==> forall i :: 0 <= i < |kept| ==> MostlyAlpha(kept[i], isAlpha))
      && (keepAlpha ==> forall i :: 0 <= i < |docs| && MostlyAlpha(docs[i], isAlpha) ==> docs[i] in kept)
      && (keepAlpha ==> (kept == docs <==> forall i :: 0 <= i < |docs| ==> MostlyAlpha(docs[i], isAlpha)))
  {
    FilterIsSubseq(docs, KeepTest(isAlpha));
    FilterAllIff(docs, KeepTest(isAlpha));
    if !keepAlpha {
      FilterIsSubseq(docs, _ => true);
      FilterAllIff(docs, _ => true);
    }
  }

  // ---------------------------------------------------------------- chunk files

  /** The base name of the text file with every `.txt` turned into `_chunk`. */
  function ChunkPrefix(filename: string): (prefix: string)
    ensures '/' !in prefix
  {
    Replace(Basename(filename), ".txt", "_chunk")
  }

  function ChunkFileName(prefix: string, index: nat): string {
    prefix + "_" + NatToString(index) + ".json"
  }

  /** `dict({'page_content': content}, **metadata)`: the metadata keys win. */
  function ChunkRecord(content: string, metadata: Metadata): (record: Metadata)
    ensures record.Keys == metadata.Keys + {ContentKey}
    ensures forall k :: k in metadata ==> record[k] == metadata[k]
    ensures ContentKey !in metadata ==> record[ContentKey] == content
  {
    map[ContentKey := content] + metadata
  }

  datatype ChunkFile = ChunkFile(path: string, record: Metadata)

  /** The file of kept chunk `i`: named by its index among the kept chunks,
      with the index stamped into the metadata. */
  function ChunkFileAt(kept: seq<string>, filename: string, chunksDir: string, metadata: Metadata, i: nat): ChunkFile
    requires i < |kept|
  {
    ChunkFile(PathJoin(chunksDir, ChunkFileName(ChunkPrefix(filename), i)),
              ChunkRecord(kept[i], metadata[ChunkKey := NatToString(i)]))
  }

  /** One file per kept chunk, numbered from 0 over the kept chunks. */
  function ChunkFiles(kept: seq<string>, filename: string, chunksDir: string, metadata: Metadata): (files: seq<ChunkFile>)
    ensures |files| == |kept|
    ensures forall i :: 0 <= i < |kept| ==> files[i] == ChunkFileAt(kept, filename, chunksDir, metadata, i)
  {
    seq(|kept|, i requires 0 <= i < |kept| => ChunkFileAt(kept, filename, chunksDir, metadata, i))
  }

  /** The caller's metadata after the loop: `/Chunk` holds the last index written. */
  function MetadataAfter(metadata: Metadata, count: nat): Metadata {
    if count == 0 then metadata else metadata[ChunkKey := NatToString(count - 1)]
  }

  /** The writing loop, stamping the index into the one shared metadata map
      before each record is built from it. */
  method WriteChunks(kept: seq<string>, filename: string, chunksDir: string, metadata: Metadata)
    returns (files: seq<ChunkFile>, after: Metadata)
    ensures |files| == |kept|
    ensures forall i :: 0 <= i < |kept| ==> files[i] == ChunkFileAt(kept, filename, chunksDir, metadata, i)
    ensures after == MetadataAfter(metadata, |kept|)
  {
    var prefix := ChunkPrefix(filename);
    files := [];
    after := metadata;
    for i := 0 to |kept|
      invariant |files| == i
      invariant forall j :: 0 <= j < i ==> files[j] == ChunkFileAt(kept, filename, chunksDir, metadata, j)
      invariant after == MetadataAfter(metadata, i)
    {
      StampTwice(metadata, i);
      after := after[ChunkKey := NatToString(i)];
      var file := ChunkFile(PathJoin(chunksDir, ChunkFileName(prefix, i)), ChunkRecord(kept[i], after));
      FilesSnoc(kept, filename, chunksDir, metadata, files, file);
      files := files + [file];
    }
  }

  lemma FilesSnoc(kept: seq<string>, filename: string, chunksDir: string, metadata: Metadata,
                  files: seq<ChunkFile>, file: ChunkFile)
    requires |files| < |kept| && file == ChunkFileAt(kept, filename, chunksDir, metadata, |files|)
    requires forall j :: 0 <= j < |files| ==> files[j] == ChunkFileAt(kept, filename, chunksDir, metadata, j)
    ensures forall j :: 0 <= j < |files| + 1 ==> (files + [file])[j] == ChunkFileAt(kept, filename, chunksDir, metadata, j)
  {
  }

  lemma StampTwice(metadata: Metadata, i: nat)
    ensures MetadataAfter(metadata, i)[ChunkKey := NatToString(i)] == metadata[ChunkKey := NatToString(i)]
    ensures MetadataAfter(metadata, i + 1) == metadata[ChunkKey := NatToString(i)]
  {
  }

  /** Chunk files of one document never share a path. */
  lemma ChunkPathsDistinct(kept: seq<string>, filename: string, chunksDir: string, metadata: Metadata, i: nat, j: nat)
    requires i < |kept| && j < |kept| && i != j
    ensures ChunkFiles(kept, filename, chunksDir, metadata)[i].path != ChunkFiles(kept, filename, chunksDir, metadata)[j].path
  {
    var prefix := ChunkPrefix(filename);
    var a := ChunkFileName(prefix, i);
    var b := ChunkFileName(prefix, j);
    if PathJoin(chunksDir, a) == PathJoin(chunksDir, b) {
      PathJoinInjective(chunksDir, a, b);
      var si, sj := NatToString(i), NatToString(j);
      assert |si| == |sj|;
      assert si == a[|prefix| + 1..|prefix| + 1 + |si|];
      assert sj == b[|prefix| + 1..|prefix| + 1 + |sj|];
      NatToStringInjective(i, j);
    }
  }

  /** Each record carries its chunk's index under `/Chunk`, readable back as a
      number, the rest of the metadata unchanged, and the chunk text unless the
      metadata has its own `page_content`. */
  lemma ChunkRecordContents(kept: seq<string>, filename: string, chunksDir: string, metadata: Metadata, i: nat)
    requires i < |kept|
    ensures var record := ChunkFiles(kept, filename, chunksDir, metadata)[i].record;
      && record.Keys == metadata.Keys + {ContentKey, ChunkKey}
      && record[ChunkKey] == NatToString(i)
      && ParseDigits(record[ChunkKey]) == i
      && (forall k :: k in metadata && k != ChunkKey ==> record[k] == metadata[k])
      && (ContentKey !in metadata ==> record[ContentKey] == kept[i])
      && (ContentKey in metadata ==> record[ContentKey] == metadata[ContentKey])
  {
    ParseNatToString(i);
  }

  /** The candidates the selection keeps, when it does not fail. */
  function Kept(docs: seq<string>, keepAlpha: bool, isAlpha: char -> bool): seq<string> {
    if keepAlpha then Filter(docs, KeepTest(isAlpha)) else docs
  }

  /** File `i` holds the `i`-th kept chunk, with the metadata stamped with `i`,
      and there is one file per kept chunk. */
  predicate FilesHoldChunks(files: seq<ChunkFile>, kept: seq<string>, metadata: Metadata) {
    && |files| == |kept|
    && forall i :: 0 <= i < |kept| ==> files[i].record == ChunkRecord(kept[i], metadata[ChunkKey := NatToString(i)])
  }

  datatype Chunked = Chunked(files: seq<ChunkFile>, metadataAfter: Metadata)

  /** Split the text, select the chunks, and build one file per kept chunk. */
  function ConvertTextToChunks(filename: string, chunksDir: string, metadata: Metadata, text: string,
                               split: Splitter, chunkSize: nat, chunkOverlap: nat, keepAlpha: bool,
                               isAlpha: char -> bool): (r: Result<Chunked>)
    ensures r.Fail? <==> keepAlpha && "" in split(text, chunkSize, chunkOverlap)
    ensures r.Ok? ==> |r.value.files| <= |split(text, chunkSize, chunkOverlap)|
    ensures r.Ok? && !keepAlpha ==> |r.value.files| == |split(text, chunkSize, chunkOverlap)|
    ensures r.Ok? ==> forall i :: 0 <= i < |r.value.files| ==>
      r.value.files[i].path == PathJoin(chunksDir, ChunkFileName(ChunkPrefix(filename), i))
    ensures r.Ok? ==>
      r.value.metadataAfter.Keys == metadata.Keys + (if |r.value.files| > 0 then {ChunkKey} else {})
    ensures r.Ok? ==> FilesHoldChunks(r.value.files, Kept(split(text, chunkSize, chunkOverlap), keepAlpha, isAlpha), metadata)
  {
    var kept :- SelectChunks(split(text, chunkSize, chunkOverlap), keepAlpha, isAlpha);
    Ok(Chunked(ChunkFiles(kept, filename, chunksDir, metadata), MetadataAfter(metadata, |kept|)))
  }

  // ---------------------------------------------------------------- pdf_to_chunks

  datatype ReportOutput = ReportOutput(report: string, textPath: string, text: string, chunks: seq<ChunkFile>)

  /** Convert, clean and chunk one directory entry, with the default settings. */
  function ProcessReport(reportsDir: string, chunksDir: string, report: string, library: Library,
                         split: Splitter, isAlpha: char -> bool): (r: Result<ReportOutput>)
    ensures var c := ConvertPdfToText(PathJoin(reportsDir, report), TextFolder, library);
      r.Ok? <==> c.Ok? && "" !in split(TranslateNewlines(c.value.text), DefaultChunkSize, DefaultChunkOverlap)
    ensures var c := ConvertPdfToText(PathJoin(reportsDir, report), TextFolder, library);
      r.Fail? ==> r.error == (if c.Fail? then c.error else ZeroDivision)
    ensures r.Ok? ==> r.value.report == report && IsPdfName(PathJoin(reportsDir, report))
    ensures var c := ConvertPdfToText(PathJoin(reportsDir, report), TextFolder, library);
      r.Ok? ==> && r.value.text == c.value.text
                && FilesHoldChunks(r.value.chunks,
                        Kept(split(TranslateNewlines(c.value.text), DefaultChunkSize, DefaultChunkOverlap), DefaultKeepAlpha, isAlpha),
                        c.value.metadata)
    ensures r.Ok? ==> r.value.textPath == PathJoin(TextFolder, TextFileName(PathJoin(reportsDir, report)))
    ensures r.Ok? ==> forall i :: 0 <= i < |r.value.chunks| ==>
      r.value.chunks[i].path == PathJoin(chunksDir, ChunkFileName(ChunkPrefix(r.value.textPath), i))
  {
    var converted :- ConvertPdfToText(PathJoin(reportsDir, report), TextFolder, library);
    var cleaned := CleanText(converted.path);
    var chunked :- ConvertTextToChunks(cleaned, chunksDir, converted.metadata, TranslateNewlines(converted.text), split,
                                       DefaultChunkSize, DefaultChunkOverlap, DefaultKeepAlpha, isAlpha);
    Ok(ReportOutput(report, converted.path, converted.text, chunked.files))
  }

  /** The reports completed, in processing order, and the exception that ended
      the run early, if any. Files of completed reports stay written. */
  datatype RunLog = RunLog(done: seq<ReportOutput>, aborted: Option<Error>)

  /** Processing of one directory entry, as the loop body sees it. */
  type Step = string -> Result<ReportOutput>

  function ReportStep(reportsDir: string, chunksDir: string, library: Library,
                      split: Splitter, isAlpha: char -> bool): Step
  {
    report => ProcessReport(reportsDir, chunksDir, report, library, split, isAlpha)
  }

  /** The loop over the reports, without a handler: the first failing report ends it. */
  function RunReports(reports: seq<string>, step: Step): (log: RunLog)
    ensures |log.done| <= |reports|
    ensures forall i :: 0 <= i < |log.done| ==> step(reports[i]) == Ok(log.done[i])
    ensures log.aborted.None? <==> |log.done| == |reports|
    ensures log.aborted.Some? ==> step(reports[|log.done|]) == Fail(log.aborted.value)
  {
    if |reports| == 0 then RunLog([], None)
    else
      match step(reports[0])
      case Fail(e) => RunLog([], Some(e))
      case Ok(out) =>
        var rest := RunReports(reports[1..], step);
        RunLog([out] + rest.done, rest.aborted)
  }

  function ReportNames(done: seq<ReportOutput>): (names: seq<string>)
    ensures |names| == |done|
  {
    seq(|done|, i requires 0 <= i < |done| => done[i].report)
  }

  /** The listed entries named like PDFs, in sorted order, one after another;
      the first exception stops the run. */
  function PdfToChunks(reportsDir: string, chunksDir: string, listing: seq<string>, library: Library,
                       split: Splitter, isAlpha: char -> bool): (log: RunLog)
    ensures forall i :: 0 <= i < |log.done| ==> log.done[i].report in listing && IsPdfName(log.done[i].report)
    ensures forall i, j :: 0 <= i < j < |log.done| ==> LexLe(log.done[i].report, log.done[j].report)
    ensures log.aborted.None? ==> multiset(ReportNames(log.done)) == multiset(Filter(listing, PdfNameTest))
    ensures log.aborted.None? <==>
      forall r :: r in listing && IsPdfName(r) ==> ProcessReport(reportsDir, chunksDir, r, library, split, isAlpha).Ok?
    ensures forall i :: 0 <= i < |log.done| ==>
      ProcessReport(reportsDir, chunksDir, log.done[i].report, library, split, isAlpha) == Ok(log.done[i])
    ensures var reports := SortNames(Filter(listing, PdfNameTest));
      && |log.done| <= |reports|
      && ReportNames(log.done) == reports[..|log.done|]
      && (log.aborted.Some? ==>
            && |log.done| < |reports|
            && ProcessReport(reportsDir, chunksDir, reports[|log.done|], library, split, isAlpha) == Fail(log.aborted.value))
  {
    PdfRunOrder(reportsDir, chunksDir, listing, library, split, isAlpha);
    PdfRunCompletes(reportsDir, chunksDir, listing, library, split, isAlpha);
    PdfRunPrefix(reportsDir, chunksDir, listing, library, split, isAlpha);
    RunReports(SortNames(Filter(listing, PdfNameTest)), ReportStep(reportsDir, chunksDir, library, split, isAlpha))
  }

  lemma PdfRunOrder(reportsDir: string, chunksDir: string, listing: seq<string>, library: Library,
                    split: Splitter, isAlpha: char -> bool)
    ensures var log := RunReports(SortNames(Filter(listing, PdfNameTest)), ReportStep(reportsDir, chunksDir, library, split, isAlpha));
      && (forall i :: 0 <= i < |log.done| ==> log.done[i].report in listing && IsPdfName(log.done[i].report))
      && (forall i, j :: 0 <= i < j < |log.done| ==> LexLe(log.done[i].report, log.done[j].report))
      && (log.aborted.None? ==> multiset(ReportNames(log.done)) == multiset(Filter(listing, PdfNameTest)))
  {
    var reports := SortNames(Filter(listing, PdfNameTest));
    var step := ReportStep(reportsDir, chunksDir, library, split, isAlpha);
    ReportStepKeepsName(reportsDir, chunksDir, library, split, isAlpha);
    SortedRunFacts(reports, step);
    SelectedNames(listing, reports);
  }

  lemma PdfRunCompletes(reportsDir: string, chunksDir: string, listing: seq<string>, library: Library,
                        split: Splitter, isAlpha: char -> bool)
    ensures var log := RunReports(SortNames(Filter(listing, PdfNameTest)), ReportStep(reportsDir, chunksDir, library, split, isAlpha));
      log.aborted.None? <==>
        forall r :: r in listing && IsPdfName(r) ==> ProcessReport(reportsDir, chunksDir, r, library, split, isAlpha).Ok?
  {
    var reports := SortNames(Filter(listing, PdfNameTest));
    var step := ReportStep(reportsDir, chunksDir, library, split, isAlpha);
    RunCompletesIff(reports, step);
    StepsOnListing(listing, reports, step);
  }

  /** Every report's step succeeds exactly when the step succeeds on every
      listed PDF name. */
  lemma StepsOnListing(listing: seq<string>, reports: seq<string>, step: Step)
    requires multiset(reports) == multiset(Filter(listing, PdfNameTest))
    ensures (forall i :: 0 <= i < |reports| ==> step(reports[i]).Ok?) <==>
            (forall r :: r in listing && IsPdfName(r) ==> step(r).Ok?)
  {
    SelectedNames(listing, reports);
    SelectedNamesComplete(listing, reports);
  }

  lemma PdfRunPrefix(reportsDir: string, chunksDir: string, listing: seq<string>, library: Library,
                     split: Splitter, isAlpha: char -> bool)
    ensures var reports := SortNames(Filter(listing, PdfNameTest));
      var log := RunReports(reports, ReportStep(reportsDir, chunksDir, library, split, isAlpha));
      && (forall i :: 0 <= i < |log.done| ==>
            ProcessReport(reportsDir, chunksDir, log.done[i].report, library, split, isAlpha) == Ok(log.done[i]))
      && |log.done| <= |reports|
      && ReportNames(log.done) == reports[..|log.done|]
      && (log.aborted.Some? ==>
            && |log.done| < |reports|
            && ProcessReport(reportsDir, chunksDir, reports[|log.done|], library, split, isAlpha) == Fail(log.aborted.value))
  {
    var reports := SortNames(Filter(listing, PdfNameTest));
    var step := ReportStep(reportsDir, chunksDir, library, split, isAlpha);
    ReportStepKeepsName(reportsDir, chunksDir, library, split, isAlpha);
    SortedRunFacts(reports, step);
    RunPrefix(reports, step);
  }

  lemma ReportStepKeepsName(reportsDir: string, chunksDir: string, library: Library,
                             split: Splitter, isAlpha: char -> bool)
    ensures var step := ReportStep(reportsDir, chunksDir, library, split, isAlpha);
      forall r :: step(r).Ok? ==> step(r).value.report == r
  {
  }

  lemma SelectedNames(listing: seq<string>, reports: seq<string>)
    requires multiset(reports) == multiset(Filter(listing, PdfNameTest))
    ensures forall i :: 0 <= i < |reports| ==> reports[i] in listing && IsPdfName(reports[i])
  {
    forall i | 0 <= i < |reports|
      ensures reports[i] in listing && IsPdfName(reports[i])
    {
      assert reports[i] in multiset(reports);
      assert reports[i] in Filter(listing, PdfNameTest);
    }
  }

  /** Every listed PDF name is among the reports processed. */
  lemma SelectedNamesComplete(listing: seq<string>, reports: seq<string>)
    requires multiset(reports) == multiset(Filter(listing, PdfNameTest))
    ensures forall r :: r in listing && IsPdfName(r) ==> r in reports
  {
    forall r | r in listing && IsPdfName(r)
      ensures r in reports
    {
      assert PdfNameTest(r);
      assert r in multiset(Filter(listing, PdfNameTest));
      assert r in multiset(reports);
    }
  }

  /** The completed reports are the first ones, and an aborted run stopped at
      the next one, with that report's error. */
  lemma RunPrefix(reports: seq<string>, step: Step)
    requires forall r :: step(r).Ok? ==> step(r).value.report == r
    ensures var log := RunReports(reports, step);
      && ReportNames(log.done) == reports[..|log.done|]
      && (log.aborted.Some? ==> |log.done| < |reports| && step(reports[|log.done|]) == Fail(log.aborted.value))
  {
    var log := RunReports(reports, step);
    forall i | 0 <= i < |log.done|
      ensures ReportNames(log.done)[i] == reports[..|log.done|][i]
    {
      assert step(reports[i]) == Ok(log.done[i]);
    }
  }

  /** The run completes exactly when every report's step succeeds. */
  lemma RunCompletesIff(reports: seq<string>, step: Step)
    ensures RunReports(reports, step).aborted.None? <==> forall i :: 0 <= i < |reports| ==> step(reports[i]).Ok?
  {
    var log := RunReports(reports, step);
    if log.aborted.Some? {
      assert !step(reports[|log.done|]).Ok?;
    }
  }

  lemma SortedRunFacts(reports: seq<string>, step: Step)
    requires Sorted(reports)
    requires forall r :: step(r).Ok? ==> step(r).value.report == r
    ensures var log := RunReports(reports, step);
      && (forall i :: 0 <= i < |log.done| ==> log.done[i].report == reports[i])
      && (forall i, j :: 0 <= i < j < |log.done| ==> LexLe(log.done[i].report, log.done[j].report))
      && (log.aborted.None? ==> ReportNames(log.done) == reports)
  {
    var log := RunReports(reports, step);
    forall i, j | 0 <= i < j < |log.done|
      ensures LexLe(log.done[i].report, log.done[j].report)
    {
      SortedPairwise(reports, i, j);
    }
  }

  // ---------------------------------------------------------------- consequences

  /** A report named `<stem>.pdf`, with no dot in the stem, gets the text file
      `<stem>.txt` and the chunk prefix `<stem>_chunk`. */
  lemma PlainReportNames(reportsDir: string, stem: string)
    requires '.' !in stem && '/' !in stem
    ensures TextFileName(PathJoin(reportsDir, stem + ".pdf")) == stem + ".txt"
    ensures ChunkPrefix(PathJoin(TextFolder, stem + ".txt")) == stem + "_chunk"
  {
    BasenameOfJoin(reportsDir, stem + ".pdf");
    ReplaceTrailing(stem, ".pdf", ".txt");
    BasenameOfJoin(TextFolder, stem + ".txt");
    ReplaceTrailing(stem, ".txt", "_chunk");
  }

  /** Where a plain report's artifacts go: `text_files/<stem>.txt`, and one
      `<stem>_chunk_<i>.json` per kept chunk in the chunk directory. */
  lemma PlainReportArtifacts(reportsDir: string, chunksDir: string, stem: string, library: Library,
                             split: Splitter, isAlpha: char -> bool)
    requires '.' !in stem && '/' !in stem
    ensures var r := ProcessReport(reportsDir, chunksDir, stem + ".pdf", library, split, isAlpha);
      r.Ok? ==>
        && r.value.textPath == TextFolder + "/" + stem + ".txt"
        && forall i :: 0 <= i < |r.value.chunks| ==>
             r.value.chunks[i].path == PathJoin(chunksDir, stem + "_chunk_" + NatToString(i) + ".json")
  {
    var r := ProcessReport(reportsDir, chunksDir, stem + ".pdf", library, split, isAlpha);
    if r.Ok? {
      PlainReportNames(reportsDir, stem);
      PlainTextPath(stem);
      forall i | 0 <= i < |r.value.chunks|
        ensures r.value.chunks[i].path == PathJoin(chunksDir, stem + "_chunk_" + NatToString(i) + ".json")
      {
        PlainChunkName(stem, i);
      }
    }
  }

  lemma PlainTextPath(stem: string)
    requires '/' !in stem
    ensures PathJoin(TextFolder, stem + ".txt") == TextFolder + "/" + stem + ".txt"
  {
    assert !IsAbsolute(stem + ".txt") by {
      assert (stem + ".txt")[0] == (if |stem| > 0 then stem[0] else '.');
    }
  }

  lemma PlainChunkName(stem: string, i: nat)
    ensures ChunkFileName(stem + "_chunk", i) == stem + "_chunk_" + NatToString(i) + ".json"
  {
  }

  /** Two distinct reports, `<stem>.pdf.pdf` and `<stem>.txt.pdf`, pass the
      gate and share their text file name, so the later one overwrites the
      earlier one's text file and chunk files. */
  lemma CollidingReportNames(reportsDir: string, stem: string)
    requires '.' !in stem && '/' !in stem
    ensures var a := PathJoin(reportsDir, stem + ".pdf.pdf");
            var b := PathJoin(reportsDir, stem + ".txt.pdf");
            && a != b && IsPdfName(a) && IsPdfName(b)
            && TextFileName(a) == TextFileName(b) == stem + ".txt.txt"
  {
    CollidingPathsDiffer(reportsDir, stem);
    DoublePdfPasses(reportsDir, stem);
    TxtPdfPasses(reportsDir, stem);
    DoublePdfName(reportsDir, stem);
    TxtPdfName(reportsDir, stem);
  }

  lemma CollidingPathsDiffer(reportsDir: string, stem: string)
    requires '/' !in stem
    ensures PathJoin(reportsDir, stem + ".pdf.pdf") != PathJoin(reportsDir, stem + ".txt.pdf")
  {
    CollidingNamesDiffer(stem);
    PathJoinInjective(reportsDir, stem + ".pdf.pdf", stem + ".txt.pdf");
  }

  lemma DoublePdfPasses(reportsDir: string, stem: string)
    ensures IsPdfName(PathJoin(reportsDir, stem + ".pdf.pdf"))
  {
    Glue(stem, ".pdf", ".pdf", ".pdf.pdf");
    PdfNameOfJoin(reportsDir, stem + ".pdf", ".pdf");
  }

  lemma TxtPdfPasses(reportsDir: string, stem: string)
    ensures IsPdfName(PathJoin(reportsDir, stem + ".txt.pdf"))
  {
    Glue(stem, ".txt", ".pdf", ".txt.pdf");
    PdfNameOfJoin(reportsDir, stem + ".txt", ".pdf");
  }

  lemma CollidingNamesDiffer(stem: string)
    requires '/' !in stem
    ensures !IsAbsolute(stem + ".pdf.pdf") && !IsAbsolute(stem + ".txt.pdf")
    ensures stem + ".pdf.pdf" != stem + ".txt.pdf"
  {
    var na, nb := stem + ".pdf.pdf", stem + ".txt.pdf";
    assert na[|stem| + 1] != nb[|stem| + 1];
    assert na[0] == nb[0] == (if |stem| > 0 then stem[0] else '.');
  }

  /** Any name ending in `.pdf` passes the gate wherever it is joined. */
  lemma PdfNameOfJoin(dir: string, base: string, ext: string)
    requires ext == ".pdf"
    ensures IsPdfName(PathJoin(dir, base + ext))
  {
    var p := PathJoin(dir, base + ext);
    IsPdfNameIff(p);
    assert p[|p| - 4..] == (base + ext)[|base + ext| - 4..] == ext;
  }

  lemma TextFileNameOfJoin(dir: string, name: string)
    requires '/' !in name
    ensures TextFileName(PathJoin(dir, name)) == Replace(name, ".pdf", ".txt")
  {
    BasenameOfJoin(dir, name);
  }

  lemma DoublePdfName(reportsDir: string, stem: string)
    requires '.' !in stem && '/' !in stem
    ensures TextFileName(PathJoin(reportsDir, stem + ".pdf.pdf")) == stem + ".txt.txt"
  {
    NotInConcat('/', stem, ".pdf.pdf");
    TextFileNameOfJoin(reportsDir, stem + ".pdf.pdf");
    ReplacePdfPdf(stem);
  }

  lemma ReplacePdfPdf(stem: string)
    requires '.' !in stem
    ensures Replace(stem + ".pdf.pdf", ".pdf", ".txt") == stem + ".txt.txt"
  {
    Glue(stem, ".pdf", ".pdf", ".pdf.pdf");
    ReplaceRepeated(stem, ".pdf", ".txt");
    Glue(stem, ".txt", ".txt", ".txt.txt");
  }

  lemma TxtPdfName(reportsDir: string, stem: string)
    requires '.' !in stem && '/' !in stem
    ensures TextFileName(PathJoin(reportsDir, stem + ".txt.pdf")) == stem + ".txt.txt"
  {
    NotInConcat('/', stem, ".txt.pdf");
    TextFileNameOfJoin(reportsDir, stem + ".txt.pdf");
    ReplaceTxtPdf(stem);
  }

  lemma ReplaceTxtPdf(stem: string)
    requires '.' !in stem
    ensures Replace(stem + ".txt.pdf", ".pdf", ".txt") == stem + ".txt.txt"
  {
    Glue(stem, ['.'] + "txt", ".pdf", ".txt.pdf");
    assert ".pdf"[0] == '.' && |".pdf"| == 4;
    assert ['.'] + "txt" != ".pdf" by { assert (['.'] + "txt")[1] == 't'; }
    ReplaceNearMiss(stem, '.', "txt", ".pdf", ".txt");
    Glue(stem, ['.'] + "txt", ".txt", ".txt.txt");
  }

  lemma Glue(stem: string, a: string, b: string, ab: string)
    requires a + b == ab
    ensures stem + a + b == stem + ab
  {
    ConcatAssoc(stem, a, b);
  }

  /** Two occurrences in a row are both replaced. */
  lemma ReplaceRepeated(x: string, pat: string, rep: string)
    requires |pat| > 0 && pat[0] !in x
    ensures Replace(x + pat + pat, pat, rep) == x + rep + rep
  {
    ConcatAssoc(x, pat, pat);
    ReplaceConcat(x, pat + pat, pat, rep);
    ReplaceLead(pat, pat, rep);
    ReplaceWhole(pat, rep);
    ConcatAssoc(x, rep, rep);
  }

  /** A directory entry named just `pdf` passes the listing filter but, joined
      to a non-empty directory, fails the extension gate, and that ends the run. */
  lemma BarePdfEntryAbortsRun(reportsDir: string, chunksDir: string, listing: seq<string>, library: Library,
                              split: Splitter, isAlpha: char -> bool)
    requires |reportsDir| > 0 && "pdf" in listing
    ensures PdfToChunks(reportsDir, chunksDir, listing, library, split, isAlpha).aborted.Some?
  {
    var step := ReportStep(reportsDir, chunksDir, library, split, isAlpha);
    BarePdfFails(reportsDir, chunksDir, library, split, isAlpha);
    var reports := SortNames(Filter(listing, PdfNameTest));
    BarePdfListed(listing, reports);
    var k :| 0 <= k < |reports| && reports[k] == "pdf";
    RunStopsAtFailure(reports, step, k);
  }

  /** `pdf` joined to a non-empty directory is refused by the extension gate. */
  lemma BarePdfFails(reportsDir: string, chunksDir: string, library: Library, split: Splitter, isAlpha: char -> bool)
    requires |reportsDir| > 0
    ensures ReportStep(reportsDir, chunksDir, library, split, isAlpha)("pdf").Fail?
  {
    BareJoinNotPdf(reportsDir);
  }

  lemma BareJoinNotPdf(dir: string)
    requires |dir| > 0
    ensures !IsPdfName(PathJoin(dir, "pdf"))
  {
    var path := PathJoin(dir, "pdf");
    IsPdfNameIff(path);
    assert path[|path| - 4] == '/';
  }

  /** A listed `pdf` entry survives the filter and the sort. */
  lemma BarePdfListed(listing: seq<string>, reports: seq<string>)
    requires "pdf" in listing && multiset(reports) == multiset(Filter(listing, PdfNameTest))
    ensures "pdf" in reports
  {
    IsPdfNameIff("pdf");
    assert "pdf" in Filter(listing, PdfNameTest);
    assert "pdf" in multiset(reports);
  }

  /** A run over a list holding a failing entry does not complete. */
  lemma RunStopsAtFailure(reports: seq<string>, step: Step, k: nat)
    requires k < |reports| && step(reports[k]).Fail?
    ensures RunReports(reports, step).aborted.Some?
  {
    var log := RunReports(reports, step);
    assert log.aborted.None? ==> |log.done| == |reports|;
  }

  /** Only the splitter set to the defaults (512, no overlap) is consulted. */
  lemma SplitterDefaultsOnly(reportsDir: string, chunksDir: string, report: string, library: Library,
                             split1: Splitter, split2: Splitter, isAlpha: char -> bool)
    requires forall text :: split1(text, DefaultChunkSize, DefaultChunkOverlap) == split2(text, DefaultChunkSize, DefaultChunkOverlap)
    ensures ProcessReport(reportsDir, chunksDir, report, library, split1, isAlpha)
         == ProcessReport(reportsDir, chunksDir, report, library, split2, isAlpha)
  {
  }

  /** The filter is always on in the report loop: an empty candidate chunk makes
      the report fail with a division by zero. */
  lemma EmptyCandidateFailsReport(reportsDir: string, chunksDir: string, report: string, library: Library,
                                  split: Splitter, isAlpha: char -> bool)
    requires ConvertPdfToText(PathJoin(reportsDir, report), TextFolder, library).Ok?
    requires "" in split(TranslateNewlines(ConvertPdfToText(PathJoin(reportsDir, report), TextFolder, library).value.text),
                         DefaultChunkSize, DefaultChunkOverlap)
    ensures ProcessReport(reportsDir, chunksDir, report, library, split, isAlpha) == Fail(ZeroDivision)
  {
  }
}
