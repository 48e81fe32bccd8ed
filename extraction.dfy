/**
 * extract_texts and extract_text_from_pdf: each .pdf name in the main
 * folder is handed to the text extractor; text of at least 30 characters
 * is written to the extracted-text folder as stem + ".txt" and the PDF stays
 * where it is, while a PDF without usable text is moved to Exception.
 */
module Extraction {
  import opened Wrappers
  import opened Text
  import opened FileSystem

  /** Shorter extractor output counts as no text. */
  const MinTextLength: nat := 30

  datatype Engine = Pdfplumber | Ocr

  /** The (text, method) pair; the method is called engine here extract_text_from_pdf returns. */
  datatype Extraction = Extraction(text: string, engine: Option<Engine>)

  /**
   * The two extraction back ends applied to a PDF's bytes: the text layer
   * (pdfplumber, its page texts joined and stripped) and OCR (the stripped
   * page texts joined); None where the library raised.
   */
  datatype Extractor = Extractor(layer: string -> Option<string>, ocr: string -> Option<string>)

  predicate Usable(t: Option<string>) {
    t.Some? && |t.value| >= MinTextLength
  }

  /**
   * extract_text_from_pdf: the text layer when it is long enough, otherwise
   * the OCR text when that is long enough, otherwise ("", None).
   */
  function ExtractTextFromPdf(layer: Option<string>, ocr: Option<string>): (r: Extraction)
    ensures r == Extraction("", None) || (r.engine.Some? && |r.text| >= MinTextLength)
    ensures r.engine == Some(Pdfplumber) <==> Usable(layer)
    ensures r.engine == Some(Ocr) <==> !Usable(layer) && Usable(ocr)
    ensures r.engine == Some(Pdfplumber) ==> r.text == layer.value
    ensures r.engine == Some(Ocr) ==> r.text == ocr.value
  {
    if Usable(layer) then Extraction(layer.value, Some(Pdfplumber))
    else if Usable(ocr) then Extraction(ocr.value, Some(Ocr))
    else Extraction("", None)
  }

  function Extract(ex: Extractor, pdf: string): Extraction {
    ExtractTextFromPdf(ex.layer(pdf), ex.ocr(pdf))
  }

  /** The extractor finds usable text in this PDF. */
  predicate Accepted(ex: Extractor, pdf: string) {
    Extract(ex, pdf).text != []
  }

  /** The file operations of extracting f do not fail. */
  predicate CanExtract(f: string, fails: set<FileId>) {
    FileId(Main, f) !in fails && FileId(Extracted, TxtName(f)) !in fails
  }

  /**
   * One iteration of extract_texts for the listed name f.  `cancelled`
   * stands for extract_text_from_pdf returning ("", None) because the stop
   * flag was seen set; the script version never cancels.  A failing write or
   * move leaves everything as it was.
   */
  function ExtractStep(fs: Folders, f: string, ex: Extractor, fails: set<FileId>, cancelled: bool): (r: Folders)
    ensures r.(main := fs.main, extracted := fs.extracted, exception := fs.exception) == fs
    ensures forall n :: n in r.main ==> n in fs.main && r.main[n] == fs.main[n]
    ensures forall n :: n in fs.main && n !in r.main ==> n == f && n in r.exception && r.exception[n] == fs.main[n]
    ensures forall n :: n in fs.extracted ==> n in r.extracted
    ensures forall n :: n in r.extracted && (n !in fs.extracted || r.extracted[n] != fs.extracted[n]) ==>
      |r.extracted[n]| >= MinTextLength
  {
    if !IsPdfName(f) || f !in fs.main then fs
    else
      var res := if cancelled then Extraction("", None) else Extract(ex, fs.main[f]);
      if res.text != [] then
        if FileId(Extracted, TxtName(f)) in fails then fs
        else fs.(extracted := fs.extracted[TxtName(f) := res.text])
      else if FileId(Main, f) in fails then fs
      else fs.(main := fs.main - {f}, exception := fs.exception[f := fs.main[f]])
  }

  /**
   * One iteration carried out on the file store, given what
   * extract_text_from_pdf returned for the PDF f.
   */
  method StoreOne(fs: FileStore, f: string, res: Extraction, ghost ex: Extractor, fails: set<FileId>, ghost cancelled: bool)
    requires IsPdfName(f) && f in fs.main
    requires res == if cancelled then Extraction("", None) else Extract(ex, fs.main[f])
    modifies fs
    ensures fs.Snapshot() == ExtractStep(old(fs.Snapshot()), f, ex, fails, cancelled)
  {
    if res.text != [] {
      if FileId(Extracted, TxtName(f)) !in fails {
        fs.extracted := fs.extracted[TxtName(f) := res.text];
      }
    } else if FileId(Main, f) !in fails {
      fs.exception := fs.exception[f := fs.main[f]];
      fs.main := fs.main - {f};
    }
  }

  /** extract_texts over the listing of the main folder, in listing order. */
  function ExtractAll(fs: Folders, names: seq<string>, ex: Extractor, fails: set<FileId>): Folders
    decreases |names|
  {
    if names == [] then fs
    else ExtractStep(ExtractAll(fs, names[..|names| - 1], ex, fails), names[|names| - 1], ex, fails, false)
  }

  /**
   * extract_texts as the stop-aware version may end: over names, except
   * that when cut holds, extract_text_from_pdf saw the stop flag for the
   * last name reached and returned ("", None) for it.
   */
  function ExtractRun(fs: Folders, names: seq<string>, ex: Extractor, fails: set<FileId>, cut: bool): Folders {
    if cut && names != [] then
      ExtractStep(ExtractAll(fs, names[..|names| - 1], ex, fails), names[|names| - 1], ex, fails, true)
    else ExtractAll(fs, names, ex, fails)
  }

  /**
   * What extraction leaves behind: Main only loses PDFs, each lost PDF is in
   * Exception with its bytes, no text file is deleted, every text written
   * has at least 30 characters, and Unique, Duplicates and the repository
   * are untouched.
   */
  lemma {:induction false} ExtractionFrame(fs: Folders, names: seq<string>, ex: Extractor, fails: set<FileId>)
    ensures var r := ExtractAll(fs, names, ex, fails);
      && r.(main := fs.main, extracted := fs.extracted, exception := fs.exception) == fs
      && (forall n :: n in r.main ==> n in fs.main && r.main[n] == fs.main[n])
      && (forall n :: n in fs.main && n !in r.main ==> n in names && n in r.exception && r.exception[n] == fs.main[n])
      && (forall n :: n in fs.extracted ==> n in r.extracted)
      && (forall n :: n in r.extracted && (n !in fs.extracted || r.extracted[n] != fs.extracted[n]) ==>
            |r.extracted[n]| >= MinTextLength)
  {
    if names != [] {
      ExtractionFrame(fs, names[..|names| - 1], ex, fails);
    }
  }

  /**
   * For a listed .pdf file of Main whose file operations succeed: it is
   * still in Main afterwards exactly when the extractor accepted its text,
   * and then its text is in the extracted folder under stem + ".txt".
   */
  lemma {:induction false} ExtractionRouting(fs: Folders, names: seq<string>, ex: Extractor, fails: set<FileId>, f: string)
    requires f in names && IsPdfName(f) && f in fs.main && CanExtract(f, fails)
    ensures var r := ExtractAll(fs, names, ex, fails);
      && (f in r.main <==> Accepted(ex, fs.main[f]))
      && (Accepted(ex, fs.main[f]) ==> TxtName(f) in r.extracted && |r.extracted[TxtName(f)]| >= MinTextLength)
  {
    var k := |names| - 1;
    var init := names[..k];
    var g := names[k];
    var p := ExtractAll(fs, init, ex, fails);
    assert ExtractAll(fs, names, ex, fails) == ExtractStep(p, g, ex, fails, false);
    ExtractionFrame(fs, init, ex, fails);
    if f in init {
      ExtractionRouting(fs, init, ex, fails, f);
      StepKeepsRouted(p, g, ex, fails, f, fs.main[f]);
    } else {
      assert g == f && f in p.main && p.main[f] == fs.main[f];
      StepRoutes(p, f, ex, fails);
    }
  }

  /** Where the PDF f with bytes content ended up, as ExtractionRouting states it. */
  ghost predicate Routed(r: Folders, f: string, ex: Extractor, content: string) {
    && (f in r.main <==> Accepted(ex, content))
    && (Accepted(ex, content) ==> TxtName(f) in r.extracted && |r.extracted[TxtName(f)]| >= MinTextLength)
  }

  /** The iteration for f itself routes f by what the extractor makes of its bytes. */
  lemma StepRoutes(p: Folders, f: string, ex: Extractor, fails: set<FileId>)
    requires IsPdfName(f) && f in p.main && CanExtract(f, fails)
    ensures Routed(ExtractStep(p, f, ex, fails, false), f, ex, p.main[f])
  {
  }

  /** Any later iteration leaves a routed PDF routed, whatever name it is for. */
  lemma StepKeepsRouted(p: Folders, g: string, ex: Extractor, fails: set<FileId>, f: string, content: string)
    requires IsPdfName(f) && CanExtract(f, fails) && Routed(p, f, ex, content)
    requires f in p.main ==> p.main[f] == content
    ensures Routed(ExtractStep(p, g, ex, fails, false), f, ex, content)
  {
    if g == f && f in p.main {
      StepRoutes(p, f, ex, fails);
    }
  }

  /** The accepted text of the PDF f with bytes content is what its .txt file holds. */
  ghost predicate Stored(r: Folders, f: string, ex: Extractor, content: string) {
    Accepted(ex, content) ==> TxtName(f) in r.extracted && r.extracted[TxtName(f)] == Extract(ex, content).text
  }

  /**
   * For a listed .pdf file of Main whose file operations succeed, and which
   * shares its .txt name with no other listed .pdf file of Main (".PDF" and
   * ".pdf" both count as PDF and map to the same stem): when the extractor
   * accepts it, its .txt file holds exactly the text extract_text_from_pdf
   * returned for its bytes.
   */
  lemma {:induction false} ExtractionStoresText(fs: Folders, names: seq<string>, ex: Extractor, fails: set<FileId>, f: string)
    requires f in names && IsPdfName(f) && f in fs.main && CanExtract(f, fails)
    requires forall g :: g in names && g != f && IsPdfName(g) && g in fs.main ==> TxtName(g) != TxtName(f)
    ensures Stored(ExtractAll(fs, names, ex, fails), f, ex, fs.main[f])
  {
    var k := |names| - 1;
    var init := names[..k];
    var g := names[k];
    var p := ExtractAll(fs, init, ex, fails);
    assert ExtractAll(fs, names, ex, fails) == ExtractStep(p, g, ex, fails, false);
    ExtractionFrame(fs, init, ex, fails);
    if f in init {
      ExtractionStoresText(fs, init, ex, fails, f);
      StepKeepsStored(p, g, ex, fails, f, fs.main[f]);
    } else {
      assert g == f && f in p.main && p.main[f] == fs.main[f];
    }
  }

  /** An iteration for another name never overwrites the stored text of f. */
  lemma StepKeepsStored(p: Folders, g: string, ex: Extractor, fails: set<FileId>, f: string, content: string)
    requires CanExtract(f, fails) && Stored(p, f, ex, content)
    requires f in p.main ==> p.main[f] == content
    requires g != f && IsPdfName(g) && g in p.main ==> TxtName(g) != TxtName(f)
    ensures Stored(ExtractStep(p, g, ex, fails, false), f, ex, content)
  {
  }

  /**
   * The stop flag seen inside extract_text_from_pdf makes it return ("", None),
   * so a PDF whose text would have been accepted is moved to Exception.
   */
  lemma CancelledExtractionDemotes(fs: Folders, f: string, ex: Extractor, fails: set<FileId>)
    requires IsPdfName(f) && f in fs.main && FileId(Main, f) !in fails
    ensures var r := ExtractStep(fs, f, ex, fails, true);
      f !in r.main && r.exception[f] == fs.main[f] && r.extracted == fs.extracted
  {
  }
}
