/**
 * ingestion.py: PDF text extraction, text cleaning, the chunker's empty-input guard and the
 * per-file ingestion loop over a vector store that holds (text, metadata) records.
 * PyPDF2, the text splitter and the embedding step are oracles.
 */
module Ingestion {
  import opened Wrappers
  import opened Strings

  const EMBEDDING_MODEL_NAME := "sentence-transformers/all-MiniLM-L6-v2"
  const COLLECTION_NAME := "joradp_documents"
  const CHUNK_SIZE: nat := 1000
  const CHUNK_OVERLAP: nat := 150
  const DEFAULT_CATEGORY := "General JORADP"

  // ----- PDF text extraction (extract_text_from_pdf) -----

  /** What page.extract_text() does for one page: returns a text (None when there is none), or raises. */
  datatype Page = Page(text: Option<string>) | PageRaises

  /** A path as extract_text_from_pdf meets it: no such file, a file PyPDF2 cannot read, or a PDF's pages. */
  datatype PdfFile = Missing | Unreadable | Pdf(pages: seq<Page>)

  /** The page gave a truthy text. */
  predicate HasText(p: Page) {
    p.Page? && p.text.Some? && p.text.value != ""
  }

  /** What one page adds to the running text: its text and a newline, or nothing. */
  function Contribution(p: Page): string {
    if HasText(p) then p.text.value + "\n" else ""
  }

  /** The running text after the loop has visited the given pages (before the final strip). */
  function Accumulated(pages: seq<Page>): string {
    if pages == [] then "" else Accumulated(pages[..|pages| - 1]) + Contribution(pages[|pages| - 1])
  }

  /** Reference definition: the truthy page texts, in page order. */
  function PageTexts(pages: seq<Page>): (r: seq<string>)
    ensures forall i :: 0 <= i < |r| ==> r[i] != ""
  {
    if pages == [] then []
    else (if HasText(pages[0]) then [pages[0].text.value] else []) + PageTexts(pages[1..])
  }

  /** Reference definition: each text followed by a newline, concatenated. */
  function Terminated(texts: seq<string>): string {
    if texts == [] then "" else texts[0] + "\n" + Terminated(texts[1..])
  }

  predicate SomePageRaises(pages: seq<Page>) {
    exists i :: 0 <= i < |pages| && pages[i].PageRaises?
  }

  /**
   * The text extract_text_from_pdf returns: "" for a missing or unreadable file or when any page
   * raises; otherwise the stripped concatenation of text + "\n" over the pages that have text.
   */
  function PdfText(f: PdfFile): (r: string)
    ensures (f.Missing? || f.Unreadable?) ==> r == ""
    ensures f.Pdf? && SomePageRaises(f.pages) ==> r == ""
    ensures f.Pdf? && !SomePageRaises(f.pages) ==> r == Strip(Terminated(PageTexts(f.pages)))
  {
    match f
    case Missing => ""
    case Unreadable => ""
    case Pdf(pages) =>
      if SomePageRaises(pages) then ""
      else
        AccumulatedIsTerminated(pages);
        Strip(Accumulated(pages))
  }

  /** extract_text_from_pdf: the loop over the pages, appending each truthy page text and a newline. */
  method ExtractTextFromPdf(f: PdfFile) returns (text: string)
    ensures text == PdfText(f)
  {
    if !f.Pdf? {
      return "";
    }
    var pages := f.pages;
    var acc := "";
    var i := 0;
    while i < |pages|
      invariant 0 <= i <= |pages|
      invariant acc == Accumulated(pages[..i])
      invariant !SomePageRaises(pages[..i])
    {
      assert pages[..i + 1][..i] == pages[..i];
      match pages[i]
      case PageRaises =>
        assert SomePageRaises(pages);
        return "";
      case Page(pageText) =>
        if pageText.Some? && pageText.value != "" {
          acc := acc + pageText.value + "\n";
        }
      i := i + 1;
    }
    assert pages[..i] == pages;
    text := Strip(acc);
  }

  // ----- Cleaning and chunking -----

  /**
   * clean_text: two literal replacements (of the three-character string "\n\n+" by "\n", then of
   * "  +" by " "), then every '\n'-separated line stripped, rejoined with '\n', and the whole
   * stripped. The result has no leading or trailing whitespace, none of its lines begins or ends
   * with whitespace, and it is never longer than the input.
   */
  function CleanText(text: string): (r: string)
    ensures Stripped(r)
    ensures forall line :: line in Split(r, '\n') ==> Stripped(line)
    ensures |r| <= |text|
  {
    var newlinesReplaced := Replace(text, "\n\n+", "\n");
    var spacesReplaced := Replace(newlinesReplaced, "  +", " ");
    var lines := Split(spacesReplaced, '\n');
    var joined := Join(StripEach(lines), "\n");
    CleanTextLines(lines);
    StripKeepsLinesTrimmed(joined);
    StripSpec(joined);
    LinesOfTrimmed(Strip(joined));
    JoinSplit(spacesReplaced, '\n');
    JoinStripEachNoLonger(lines, "\n");
    Strip(joined)
  }

  /** The lines after stripping each one, joined with '\n', satisfy LinesTrimmed. */
  lemma CleanTextLines(lines: seq<string>)
    requires forall i :: 0 <= i < |lines| ==> '\n' !in lines[i]
    ensures LinesTrimmed(Join(StripEach(lines), "\n"))
  {
    var stripped := StripEach(lines);
    forall i | 0 <= i < |stripped| ensures '\n' !in stripped[i] && Stripped(stripped[i]) {
      StripKeepsNoNewline(lines[i]);
      StripSpec(lines[i]);
    }
    LinesTrimmedJoin(stripped);
  }

  /** CleanText as the composition of its steps. */
  lemma CleanTextSteps(text: string)
    ensures CleanText(text) == Strip(Join(StripEach(Split(Replace(Replace(text, "\n\n+", "\n"), "  +", " "), '\n')), "\n"))
  {
  }

  /** When neither literal pattern occurs, cleaning is stripping each line and then the whole. */
  lemma CleanTextWithoutPatterns(text: string, lines: seq<string>)
    requires !Contains(text, "\n\n+") && !Contains(text, "  +")
    requires Split(text, '\n') == lines
    ensures CleanText(text) == Strip(Join(StripEach(lines), "\n"))
  {
    CleanTextSteps(text);
    ReplaceAbsent(text, "\n\n+", "\n");
    ReplaceAbsent(text, "  +", " ");
  }

  /** The text splitter (RecursiveCharacterTextSplitter.split_text with a size and an overlap), an oracle. */
  type Splitter = (string, nat, nat) -> seq<string>

  /** chunk_text_recursive: empty text gives no chunks; any other text goes to the splitter. */
  function ChunkTextRecursive(split: Splitter, text: string, chunkSize: nat, chunkOverlap: nat): (r: seq<string>)
    ensures text == "" ==> r == []
  {
    if text == "" then [] else split(text, chunkSize, chunkOverlap)
  }

  // ----- The vector store and the ingestion loop (run_ingestion_pipeline) -----

  /** The metadata stored with each chunk. */
  datatype Metadata = Metadata(source: string, chunkNum: nat, category: string)

  /** One stored record: a chunk's text and its metadata (its embedding is the store's business). */
  datatype Record = Record(text: string, metadata: Metadata)

  /**
   * One file found by the directory listing: its base name, its content, and what the store does
   * when asked about it: whether the existence query raises and whether add_texts raises.
   */
  datatype SourceFile = SourceFile(filename: string, pdf: PdfFile, existenceCheckRaises: bool, addTextsRaises: bool)

  /** Some record carries this source name. */
  predicate HasSource(records: seq<Record>, source: string) {
    exists i :: 0 <= i < |records| && records[i].metadata.source == source
  }

  /** The metadata list built for a file's n chunks: chunk numbers 0 .. n-1 in order. */
  function ChunkMetadatas(n: nat, filename: string): (r: seq<Metadata>)
    ensures |r| == n
    ensures forall i :: 0 <= i < n ==> r[i] == Metadata(filename, i, DEFAULT_CATEGORY)
  {
    seq(n, i requires 0 <= i < n => Metadata(filename, i, DEFAULT_CATEGORY))
  }

  /** The records add_texts stores for parallel lists of texts and metadatas. */
  function Zip(texts: seq<string>, metadatas: seq<Metadata>): (r: seq<Record>)
    requires |texts| == |metadatas|
    ensures |r| == |texts|
  {
    seq(|texts|, i requires 0 <= i < |texts| => Record(texts[i], metadatas[i]))
  }

  function ChunkRecords(chunks: seq<string>, filename: string): (r: seq<Record>)
    ensures |r| == |chunks|
    ensures forall i :: 0 <= i < |r| ==> r[i] == Record(chunks[i], Metadata(filename, i, DEFAULT_CATEGORY))
  {
    Zip(chunks, ChunkMetadatas(|chunks|, filename))
  }

  /** The chunks a processed file yields: none when no text was extracted, else the splitter's chunks of the cleaned text. */
  function ChunksOf(f: SourceFile, split: Splitter): seq<string> {
    var rawText := PdfText(f.pdf);
    if rawText == "" then [] else ChunkTextRecursive(split, CleanText(rawText), CHUNK_SIZE, CHUNK_OVERLAP)
  }

  /** The records a processed file adds: none when it has no chunks or add_texts raises. */
  function Produced(f: SourceFile, split: Splitter): seq<Record> {
    var chunks := ChunksOf(f, split);
    if chunks == [] || f.addTextsRaises then [] else ChunkRecords(chunks, f.filename)
  }

  /** The file is skipped: the existence query answered and found a record with its name. */
  predicate Skipped(records: seq<Record>, f: SourceFile) {
    !f.existenceCheckRaises && HasSource(records, f.filename)
  }

  /** One turn of the loop: a skipped file adds nothing, any other file adds what it produces. */
  function IngestFile(records: seq<Record>, f: SourceFile, split: Splitter): (r: seq<Record>)
    ensures records <= r
  {
    if Skipped(records, f) then records else records + Produced(f, split)
  }

  /**
   * What one turn adds: existing records are kept; whatever is added is the file's chunks in order,
   * carrying the file's name with chunk numbers 0, 1, ... and the default category; a skipped file
   * adds nothing, any other file appends exactly what it produces, and a file that added
   * something is found by the existence query afterwards.
   */
  lemma IngestFileAdds(records: seq<Record>, f: SourceFile, split: Splitter)
    ensures var r := IngestFile(records, f, split);
      && (Skipped(records, f) ==> r == records)
      && (!Skipped(records, f) ==> r == records + Produced(f, split))
      && (forall i :: |records| <= i < |r| ==>
            r[i].metadata == Metadata(f.filename, i - |records|, DEFAULT_CATEGORY))
      && (r != records ==> HasSource(r, f.filename) && r[|records|..] == ChunkRecords(ChunksOf(f, split), f.filename))
  {
    var r := IngestFile(records, f, split);
    if r != records {
      assert r[|records|].metadata.source == f.filename;
    }
  }

  /** The whole loop over the files, in order. It only appends: every stored record is kept, unchanged and in place. */
  function IngestAll(records: seq<Record>, files: seq<SourceFile>, split: Splitter): (r: seq<Record>)
    ensures records <= r
  {
    if files == [] then records
    else IngestFile(IngestAll(records, files[..|files| - 1], split), files[|files| - 1], split)
  }

  /** The store's records; add_texts appends, nothing else changes them. */
  class VectorStore {
    var records: seq<Record>

    constructor (initial: seq<Record>)
      ensures records == initial
    {
      records := initial;
    }

    /** add_texts: one record per text, with the matching metadata, appended in order. */
    method AddTexts(texts: seq<string>, metadatas: seq<Metadata>)
      requires |texts| == |metadatas|
      modifies this
      ensures records == old(records) + Zip(texts, metadatas)
    {
      records := records + Zip(texts, metadatas);
    }

    /** One turn of run_ingestion_pipeline's loop: the existence check, extraction, cleaning, chunking and storing. */
    method IngestOne(f: SourceFile, split: Splitter)
      modifies this
      ensures records == IngestFile(old(records), f, split)
    {
      if !f.existenceCheckRaises && HasSource(records, f.filename) {
        return;
      }
      var rawText := ExtractTextFromPdf(f.pdf);
      if rawText == "" {
        assert ChunksOf(f, split) == [];
        return;
      }
      var cleaned := CleanText(rawText);
      var chunks := ChunkTextRecursive(split, cleaned, CHUNK_SIZE, CHUNK_OVERLAP);
      assert chunks == ChunksOf(f, split);
      if chunks == [] {
        return;
      }
      var metadatas := ChunkMetadatas(|chunks|, f.filename);
      if !f.addTextsRaises {
        AddTexts(chunks, metadatas);
      }
    }

    /** run_ingestion_pipeline over the files the directory listing found, in order. */
    method RunIngestionPipeline(files: seq<SourceFile>, split: Splitter)
      modifies this
      ensures records == IngestAll(old(records), files, split)
    {
      if files == [] {
        return;
      }
      var i := 0;
      while i < |files|
        invariant 0 <= i <= |files|
        invariant records == IngestAll(old(records), files[..i], split)
      {
        assert files[..i + 1][..i] == files[..i];
        IngestOne(files[i], split);
        i := i + 1;
      }
      assert files[..i] == files;
    }
  }

  // ----- Lemmas -----

  lemma {:induction false} AccumulatedConcat(a: seq<Page>, b: seq<Page>)
    ensures Accumulated(a + b) == Accumulated(a) + Accumulated(b)
    decreases |b|
  {
    if b == [] {
      assert a + b == a;
    } else {
      var n := |b| - 1;
      assert (a + b)[..|a + b| - 1] == a + b[..n];
      AccumulatedConcat(a, b[..n]);
    }
  }

  lemma {:induction false} PageTextsConcat(a: seq<Page>, b: seq<Page>)
    ensures PageTexts(a + b) == PageTexts(a) + PageTexts(b)
  {
    if a == [] {
      assert a + b == b;
    } else {
      assert (a + b)[1..] == a[1..] + b;
      PageTextsConcat(a[1..], b);
    }
  }

  lemma {:induction false} TerminatedConcat(x: seq<string>, y: seq<string>)
    ensures Terminated(x + y) == Terminated(x) + Terminated(y)
  {
    if x == [] {
      assert x + y == y;
    } else {
      assert (x + y)[1..] == x[1..] + y;
      TerminatedConcat(x[1..], y);
    }
  }

  /** The loop's running text is the reference concatenation of the truthy page texts, each with a newline. */
  lemma {:induction false} AccumulatedIsTerminated(pages: seq<Page>)
    ensures Accumulated(pages) == Terminated(PageTexts(pages))
    decreases |pages|
  {
    if pages != [] {
      var n := |pages| - 1;
      var init, last := pages[..n], pages[n];
      assert pages == init + [last];
      AccumulatedIsTerminated(init);
      PageTextsConcat(init, [last]);
      assert PageTexts([last]) == (if HasText(last) then [last.text.value] else []) + PageTexts([]);
      TerminatedConcat(PageTexts(init), PageTexts([last]));
    }
  }

  lemma SomePageRaisesConcat(a: seq<Page>, b: seq<Page>)
    ensures SomePageRaises(a + b) <==> SomePageRaises(a) || SomePageRaises(b)
  {
    var ab := a + b;
    if SomePageRaises(ab) {
      var i :| 0 <= i < |ab| && ab[i].PageRaises?;
      if i < |a| { assert a[i] == ab[i]; } else { assert b[i - |a|] == ab[i]; }
    }
    if SomePageRaises(a) {
      var i :| 0 <= i < |a| && a[i].PageRaises?;
      assert ab[i] == a[i];
    }
    if SomePageRaises(b) {
      var i :| 0 <= i < |b| && b[i].PageRaises?;
      assert ab[|a| + i] == b[i];
    }
  }

  lemma PageTextsSkipEmpty(before: seq<Page>, p: Page, after: seq<Page>)
    requires !HasText(p)
    ensures PageTexts(before + [p] + after) == PageTexts(before + after)
  {
    PageTextsConcat(before, [p]);
    PageTextsConcat(before + [p], after);
    PageTextsConcat(before, after);
    assert PageTexts([p]) == [] by {
      assert PageTexts([p]) == [] + PageTexts([]);
    }
  }

  lemma SomePageRaisesSkip(before: seq<Page>, p: Page, after: seq<Page>)
    requires p.Page?
    ensures SomePageRaises(before + [p] + after) <==> SomePageRaises(before + after)
  {
    SomePageRaisesConcat(before, [p]);
    SomePageRaisesConcat(before + [p], after);
    SomePageRaisesConcat(before, after);
    assert !SomePageRaises([p]);
  }

  /** A page without text can be removed without changing the extracted text. */
  lemma PageWithoutTextContributesNothing(before: seq<Page>, p: Page, after: seq<Page>)
    requires p.Page? && !HasText(p)
    ensures PdfText(Pdf(before + [p] + after)) == PdfText(Pdf(before + after))
  {
    PageTextsSkipEmpty(before, p, after);
    SomePageRaisesSkip(before, p, after);
  }

  /** A record present stays present as records are appended. */
  lemma HasSourceGrows(records: seq<Record>, more: seq<Record>, source: string)
    requires records <= more && HasSource(records, source)
    ensures HasSource(more, source)
  {
    var i :| 0 <= i < |records| && records[i].metadata.source == source;
    assert more[i] == records[i];
  }

  /** After one turn, the file is found by the existence query or would add nothing. */
  lemma IngestFileCovers(records: seq<Record>, f: SourceFile, split: Splitter)
    ensures HasSource(IngestFile(records, f, split), f.filename) || Produced(f, split) == []
  {
    var r := IngestFile(records, f, split);
    if Skipped(records, f) {
      HasSourceGrows(records, r, f.filename);
    } else if Produced(f, split) != [] {
      assert r[|records|].metadata.source == f.filename;
    }
  }

  lemma CoveredStaysCovered(before: seq<Record>, after: seq<Record>, f: SourceFile, split: Splitter)
    requires before <= after
    requires HasSource(before, f.filename) || Produced(f, split) == []
    ensures HasSource(after, f.filename) || Produced(f, split) == []
  {
    if HasSource(before, f.filename) {
      HasSourceGrows(before, after, f.filename);
    }
  }

  /** After one run, each file is found by the existence query or would add nothing if processed. */
  lemma {:induction false} IngestAllCovers(records: seq<Record>, files: seq<SourceFile>, split: Splitter, k: nat)
    requires k < |files|
    ensures HasSource(IngestAll(records, files, split), files[k].filename) || Produced(files[k], split) == []
    decreases |files|
  {
    var n := |files| - 1;
    var init := files[..n];
    var before := IngestAll(records, init, split);
    assert IngestAll(records, files, split) == IngestFile(before, files[n], split);
    if k == n {
      IngestFileCovers(before, files[n], split);
    } else {
      IngestAllCovers(records, init, split, k);
      assert init[k] == files[k];
      CoveredStaysCovered(before, IngestAll(records, files, split), files[k], split);
    }
  }

  /** A run over files that are all found or would add nothing, with no failing existence query, changes nothing. */
  lemma {:induction false} IngestAllStable(records: seq<Record>, files: seq<SourceFile>, split: Splitter)
    requires forall k :: 0 <= k < |files| ==> !files[k].existenceCheckRaises
    requires forall k :: 0 <= k < |files| ==>
      HasSource(records, files[k].filename) || Produced(files[k], split) == []
    ensures IngestAll(records, files, split) == records
    decreases |files|
  {
    if files != [] {
      var n := |files| - 1;
      IngestAllStable(records, files[..n], split);
    }
  }

  /**
   * Re-running the pipeline over the same files adds nothing, provided the existence query
   * answers for every file: each file was either stored (and is now skipped) or yields no records.
   */
  lemma IngestAllIdempotent(records: seq<Record>, files: seq<SourceFile>, split: Splitter)
    requires forall k :: 0 <= k < |files| ==> !files[k].existenceCheckRaises
    ensures IngestAll(IngestAll(records, files, split), files, split) == IngestAll(records, files, split)
  {
    forall k | 0 <= k < |files|
      ensures HasSource(IngestAll(records, files, split), files[k].filename) || Produced(files[k], split) == []
    {
      IngestAllCovers(records, files, split, k);
    }
    IngestAllStable(IngestAll(records, files, split), files, split);
  }

  /**
   * An existence query that raises does not skip a file already stored: the file is processed
   * again and its records are appended a second time, next to the ones already there.
   */
  lemma ReprocessedWhenCheckRaises(records: seq<Record>, f: SourceFile, split: Splitter)
    requires f.existenceCheckRaises && HasSource(records, f.filename) && Produced(f, split) != []
    ensures IngestFile(records, f, split) == records + Produced(f, split)
    ensures |IngestFile(records, f, split)| > |records|
  {
  }

  /**
   * So the pipeline is not idempotent when the existence query raises: a second run over a
   * file that yields records adds them again.
   */
  lemma IngestAllRepeatsWhenCheckRaises(records: seq<Record>, f: SourceFile, split: Splitter)
    requires f.existenceCheckRaises && Produced(f, split) != []
    ensures |IngestAll(IngestAll(records, [f], split), [f], split)| > |IngestAll(records, [f], split)|
  {
    assert [f][..0] == [];
    var once := IngestFile(records, f, split);
    assert IngestAll(records, [f], split) == once;
    assert once == records + Produced(f, split);
    assert once[|records|].metadata.source == f.filename;
    ReprocessedWhenCheckRaises(once, f, split);
    assert IngestAll(once, [f], split) == IngestFile(once, f, split);
  }

  /**
   * A failed add_texts is not permanent: a file whose records could not be added is not stored,
   * so the next run processes it again and, when add_texts then succeeds, appends its chunks.
   */
  lemma RetriedAfterFailedAdd(records: seq<Record>, f: SourceFile, split: Splitter)
    requires f.addTextsRaises && !Skipped(records, f) && ChunksOf(f, split) != []
    ensures IngestAll(records, [f], split) == records
    ensures var once := IngestAll(records, [f], split);
      IngestAll(once, [f.(addTextsRaises := false)], split) == once + ChunkRecords(ChunksOf(f, split), f.filename)
  {
    assert [f][..0] == [];
    var g := f.(addTextsRaises := false);
    assert [g][..0] == [];
    assert IngestAll(records, [f], split) == IngestFile(records, f, split);
    assert IngestAll(records, [g], split) == IngestFile(records, g, split);
  }

  /** A stripped string is its own strip. */
  lemma StrippedFixed(s: string)
    requires Stripped(s)
    ensures Strip(s) == s
  {
    assert LStrip(s) == s;
    assert RStrip(s) == s;
  }

  /**
   * A single line that neither begins nor ends with whitespace and holds neither literal pattern
   * comes out of the cleaner unchanged; in particular runs of spaces inside it are kept.
   */
  lemma CleanTextKeepsCleanLine(line: string)
    requires '\n' !in line && Stripped(line) && !Contains(line, "  +")
    ensures CleanText(line) == line
  {
    assert !Contains(line, "\n\n+") by {
      forall i | 0 <= i <= |line| ensures !("\n\n+" <= line[i..]) {
        if i < |line| {
          assert line[i..][0] == line[i] && line[i] in line;
        }
      }
    }
    SplitNoSeparator(line, '\n');
    CleanTextWithoutPatterns(line, [line]);
    StrippedFixed(line);
    assert StripEach([line]) == [line];
  }

  /** The cleaner does not collapse a double space: the replacements match the literal "  +" only. */
  lemma CleanTextKeepsDoubleSpace()
    ensures CleanText("a  b") == "a  b"
  {
    var s := "a  b";
    assert !Contains(s, "  +") by {
      forall i | 0 <= i <= |s| ensures !("  +" <= s[i..]) {
        if i + 2 < |s| {
          assert s[i + 2] != '+';
        }
      }
    }
    assert !IsSpace('a') && !IsSpace('b');
    CleanTextKeepsCleanLine(s);
  }

  lemma SplitThree(a: string, b: string, c: string)
    requires '\n' !in a && '\n' !in b && '\n' !in c
    ensures Split(a + "\n" + b + "\n" + c, '\n') == [a, b, c]
  {
    assert a + "\n" + b + "\n" + c == a + ['\n'] + (b + ['\n'] + c);
    SplitConcat(a, b + ['\n'] + c, '\n');
    SplitConcat(b, c, '\n');
    SplitNoSeparator(a, '\n');
    SplitNoSeparator(b, '\n');
    SplitNoSeparator(c, '\n');
  }

  lemma StripEachThree(a: string, b: string, c: string)
    ensures Join(StripEach([a, b, c]), "\n") == Strip(a) + "\n" + Strip(b) + "\n" + Strip(c)
  {
    assert [a, b, c][1..] == [b, c];
    assert [b, c][1..] == [c];
    assert [c][1..] == [];
    var r := [Strip(a), Strip(b), Strip(c)];
    assert StripEach([a, b, c]) == r;
    assert r[1..] == [Strip(b), Strip(c)];
    assert r[1..][1..] == [Strip(c)];
    assert Join(r[1..][1..], "\n") == Strip(c);
    assert Join(r[1..], "\n") == Strip(b) + "\n" + Strip(c);
    assert Join(r, "\n") == Strip(a) + "\n" + (Strip(b) + "\n" + Strip(c));
  }

  /** Three lines without either literal pattern: each line is stripped, then the whole. */
  lemma CleanTextThreeLines(a: string, b: string, c: string)
    requires '\n' !in a && '\n' !in b && '\n' !in c
    requires !Contains(a + "\n" + b + "\n" + c, "\n\n+") && !Contains(a + "\n" + b + "\n" + c, "  +")
    ensures CleanText(a + "\n" + b + "\n" + c) == Strip(Strip(a) + "\n" + Strip(b) + "\n" + Strip(c))
  {
    SplitThree(a, b, c);
    CleanTextWithoutPatterns(a + "\n" + b + "\n" + c, [a, b, c]);
    StripEachThree(a, b, c);
  }

  /** A stripped line followed by the literal "\n\n+": the pattern becomes a newline, which the final strip removes. */
  lemma CleanTextPatternAtEnd(a: string)
    requires '\n' !in a && a != [] && Stripped(a) && !Contains(a, "  +")
    ensures CleanText(a + "\n\n+") == a
  {
    var t := a + "\n\n+";
    CleanTextSteps(t);
    ReplaceAtEnd(a, "\n\n+", "\n");
    var u := a + "\n";
    assert !Contains(u, "  +") by {
      forall i | 0 <= i <= |u| ensures !("  +" <= u[i..]) {
        if i + 3 <= |a| {
          assert !("  +" <= a[i..]);
          assert forall k :: 0 <= k < 3 ==> a[i..][k] == u[i..][k];
        } else if i + 3 == |u| {
          assert u[i..][2] == u[|a|] == '\n';
        }
      }
    }
    ReplaceAbsent(u, "  +", " ");
    assert u == a + ['\n'] + [];
    SplitConcat(a, [], '\n');
    SplitNoSeparator(a, '\n');
    StrippedFixed(a);
    assert StripEach([a, []]) == [a, []];
    assert Join([a, []], "\n") == u;
    assert IsSpace('\n') && u[|u| - 1] == '\n';
    assert u[..|u| - 1] == a;
    assert RStrip(a) == a;
    assert RStrip(u) == a;
    assert LStrip(u) == u by {
      assert u[0] == a[0];
    }
  }

  /** A string of whitespace only strips to the empty string. */
  lemma {:induction false} StripAllSpace(b: string)
    requires forall k :: 0 <= k < |b| ==> IsSpace(b[k])
    ensures Strip(b) == []
  {
    if b != [] {
      StripAllSpace(b[1..]);
    }
  }

  /**
   * Two stripped lines around a line of whitespace, with neither literal pattern anywhere: the
   * middle line is emptied, which leaves two adjacent newlines.
   */
  lemma CleanTextBlankMiddleLine(a: string, b: string, c: string)
    requires '\n' !in a && '\n' !in b && '\n' !in c
    requires a != [] && c != [] && Stripped(a) && Stripped(c)
    requires forall k :: 0 <= k < |b| ==> IsSpace(b[k])
    requires !Contains(a + "\n" + b + "\n" + c, "\n\n+") && !Contains(a + "\n" + b + "\n" + c, "  +")
    ensures CleanText(a + "\n" + b + "\n" + c) == a + "\n\n" + c
  {
    CleanTextThreeLines(a, b, c);
    StrippedFixed(a);
    StrippedFixed(c);
    StripAllSpace(b);
    var r := a + "\n\n" + c;
    assert a + "\n" + [] + "\n" + c == r;
    assert r[0] == a[0] && r[|r| - 1] == c[|c| - 1];
    StrippedFixed(r);
  }

  /** A line of text followed by "\n \n+" holds neither literal pattern when the line holds neither. */
  lemma NoPatternsBeforeBlankLine(a: string)
    requires '\n' !in a && !Contains(a, "  +")
    ensures var s := a + "\n \n+"; !Contains(s, "\n\n+") && !Contains(s, "  +")
  {
    var s := a + "\n \n+";
    var n := |a|;
    assert s[n] == '\n' && s[n + 1] == ' ' && s[n + 2] == '\n' && s[n + 3] == '+';
    assert forall k :: 0 <= k < n ==> s[k] == a[k];
    forall i | 0 <= i <= |s| ensures !("\n\n+" <= s[i..]) {
      if i + 3 <= |s| {
        if i < n {
          assert s[i..][0] == a[i] && a[i] in a;
        } else {
          assert s[i..][0] == s[i] && s[i..][1] == s[i + 1];
        }
      }
    }
    forall i | 0 <= i <= |s| ensures !("  +" <= s[i..]) {
      if i + 3 <= n {
        assert !("  +" <= a[i..]);
        assert forall k :: 0 <= k < 3 ==> a[i..][k] == s[i..][k];
      } else if i + 3 <= |s| {
        assert s[i..][0] == s[i] && s[i..][1] == s[i + 1] && s[i..][2] == s[i + 2];
      }
    }
  }

  /**
   * Cleaning is not idempotent: a line followed by a blank line and a line "+" cleans to the line,
   * two newlines and "+", which is the literal pattern "\n\n+"; cleaning that again drops it.
   */
  lemma CleanTextTwice(a: string)
    requires '\n' !in a && a != [] && Stripped(a) && !Contains(a, "  +")
    ensures CleanText(a + "\n \n+") == a + "\n\n+"
    ensures CleanText(CleanText(a + "\n \n+")) == a
  {
    NoPatternsBeforeBlankLine(a);
    assert a + "\n \n+" == a + "\n" + " " + "\n" + "+";
    assert a + "\n\n" + "+" == a + "\n\n+";
    assert !IsSpace('+') && IsSpace(' ');
    CleanTextBlankMiddleLine(a, " ", "+");
    CleanTextPatternAtEnd(a);
  }

  /** There is a text that a second cleaning pass changes again. */
  lemma CleanTextNotIdempotent()
    ensures exists s :: CleanText(CleanText(s)) != CleanText(s)
  {
    assert !IsSpace('a');
    CleanTextTwice("a");
    var s := "a" + "\n \n+";
    assert CleanText(CleanText(s)) != CleanText(s);
  }
}
