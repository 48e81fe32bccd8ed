/**
 * The six stages in the order both drivers run them, and what a run does
 * to the folders as the composition of the stage specifications.
 */
module Pipeline {
  import opened Text
  import opened Fingerprint
  import opened FileSystem
  import Intake
  import Extraction
  import LocalDedup
  import RepoCompare
  import RepoNaming
  import RepoUpdate
  import Cleanup

  /** What a run is given besides the folders. */
  datatype Inputs = Inputs(
    source: seq<Intake.SourceFile>,   // the files the walk of the source folder visits, in order
    unreadable: set<string>,          // source paths whose copy raises
    extractor: Extraction.Extractor,  // the text layer and OCR back ends
    stamp: RepoNaming.Stamp,          // datetime.now() formatted once by update_repository
    fails: Failures)                  // folder files whose read, move, copy or write raises, stage by stage

  /**
   * The file operations that raise, one set per stage after the copy: a
   * file whose read raises while one stage goes through it may well be
   * readable when a later stage comes to it.
   */
  datatype Failures = Failures(
    extract: set<FileId>,   // extract_texts: writing a text, moving a PDF to Exception
    dedup: set<FileId>,     // deduplicate_text_files: reading a text
    compare: set<FileId>,   // cross_compare_with_repository: reading a repository or batch text, copying an Exception PDF
    update: set<FileId>,    // update_repository: moving a text
    cleanup: set<FileId>)   // cleanup_main_pdf_folder: moving a PDF

  /** The names the loops of the stages go through. */
  datatype Listings = Listings(
    main: seq<string>,        // extract_texts: os.listdir of the main folder
    cut: bool,                // extract_text_from_pdf saw the stop flag for the last of those
    texts: seq<string>,       // deduplicate_text_files: files, the .txt names of the extracted-text folder
    repository: seq<string>,  // cross_compare_with_repository: os.listdir of the repository
    compared: seq<string>,    // cross_compare_with_repository: extracted_files
    exception: seq<string>,   // cross_compare_with_repository: os.listdir of Exception
    renamed: seq<string>,     // update_repository: os.listdir of the extracted-text folder
    leftovers: seq<string>)   // cleanup_main_pdf_folder: leftover_files

  datatype Stage = CopyPdfs | ExtractTexts | DeduplicateTexts | CompareWithRepository | UpdateRepository | CleanupMainFolder

  /** The fixed order of main() and run_full_pipeline. */
  const StageOrder: seq<Stage> :=
    [CopyPdfs, ExtractTexts, DeduplicateTexts, CompareWithRepository, UpdateRepository, CleanupMainFolder]

  /** What one stage does, by the stage specifications. */
  function RunStage(fs: Folders, stage: Stage, input: Inputs, ls: Listings): Folders
    requires RepoNaming.ValidStamp(input.stamp)
  {
    match stage
    case CopyPdfs => Intake.Walk(Intake.Start(fs), input.source, input.unreadable).folders
    case ExtractTexts => Extraction.ExtractRun(fs, ls.main, input.extractor, input.fails.extract, ls.cut)
    case DeduplicateTexts => LocalDedup.Dedup(LocalDedup.Start(fs), ls.texts, input.fails.dedup).folders
    case CompareWithRepository => RepoCompare.CrossCompare(fs, ls.repository, ls.compared, ls.exception, input.fails.compare).folders
    case UpdateRepository => RepoUpdate.Update(RepoUpdate.Start(fs), ls.renamed, input.stamp, input.fails.update).folders
    case CleanupMainFolder => Cleanup.CleanupLoop(fs, ls.leftovers, input.fails.cleanup)
  }

  /** The first n stages, one after the other. */
  function RunStages(fs: Folders, input: Inputs, ls: Listings, n: nat): Folders
    requires RepoNaming.ValidStamp(input.stamp) && n <= |StageOrder|
    decreases n
  {
    if n == 0 then fs else RunStage(RunStages(fs, input, ls, n - 1), StageOrder[n - 1], input, ls)
  }

  /** A complete run. */
  function RunAll(fs: Folders, input: Inputs, ls: Listings): Folders
    requires RepoNaming.ValidStamp(input.stamp)
  {
    RunStages(fs, input, ls, |StageOrder|)
  }

  /**
   * The names stage went through are what its loops list in fs, the folders
   * it started from: all of them when complete, otherwise the part before
   * the stop flag ended the loop.  (Exception is listed after the second
   * loop of the comparison, which does not change it.)
   */
  ghost predicate StageFits(fs: Folders, stage: Stage, ls: Listings, complete: bool) {
    match stage
    case CopyPdfs => true
    case ExtractTexts =>
      if complete then IsListingOf(ls.main, fs.main) && !ls.cut else IsPartialListingOf(ls.main, fs.main)
    case DeduplicateTexts =>
      if complete then IsSelectionOf(ls.texts, fs.extracted, ".txt") else IsPartialSelectionOf(ls.texts, fs.extracted, ".txt")
    case CompareWithRepository =>
      if complete then
        IsListingOf(ls.repository, fs.repository) && IsSelectionOf(ls.compared, fs.extracted, ".txt")
        && IsListingOf(ls.exception, fs.exception)
      else
        IsPartialListingOf(ls.repository, fs.repository) && IsPartialSelectionOf(ls.compared, fs.extracted, ".txt")
        && IsPartialListingOf(ls.exception, fs.exception)
        // the classification and Exception loops poll before their first item, so they
        // only start once the loops before them went through their whole listings
        && (ls.compared != [] ==> IsListingOf(ls.repository, fs.repository))
        && (ls.exception != [] ==>
              IsListingOf(ls.repository, fs.repository) && IsSelectionOf(ls.compared, fs.extracted, ".txt"))
    case UpdateRepository =>
      if complete then IsListingOf(ls.renamed, fs.extracted) else IsPartialListingOf(ls.renamed, fs.extracted)
    case CleanupMainFolder =>
      if complete then IsSelectionOf(ls.leftovers, fs.main, ".pdf") else IsPartialSelectionOf(ls.leftovers, fs.main, ".pdf")
  }

  /** The listings of the first n stages fit the folders each started from; all but the last complete. */
  ghost predicate Fits(fs: Folders, input: Inputs, ls: Listings, n: nat, lastComplete: bool)
    requires RepoNaming.ValidStamp(input.stamp) && n <= |StageOrder|
    decreases n
  {
    n == 0 || (Fits(fs, input, ls, n - 1, true) && StageFits(RunStages(fs, input, ls, n - 1), StageOrder[n - 1], ls, lastComplete))
  }

  /** The folders after each stage of a run. */
  datatype Trace = Trace(copied: Folders, extracted: Folders, deduplicated: Folders,
                         compared: Folders, updated: Folders, cleaned: Folders)

  /** The folders after each stage, with the facts tying each to the one before. */
  lemma Unfold(fs: Folders, input: Inputs, ls: Listings) returns (t: Trace)
    requires RepoNaming.ValidStamp(input.stamp) && Fits(fs, input, ls, |StageOrder|, true)
    ensures t.copied == Intake.Walk(Intake.Start(fs), input.source, input.unreadable).folders
    ensures t.extracted == Extraction.ExtractAll(t.copied, ls.main, input.extractor, input.fails.extract)
    ensures t.deduplicated == LocalDedup.Dedup(LocalDedup.Start(t.extracted), ls.texts, input.fails.dedup).folders
    ensures t.compared == RepoCompare.CrossCompare(t.deduplicated, ls.repository, ls.compared, ls.exception, input.fails.compare).folders
    ensures t.updated == RepoUpdate.Update(RepoUpdate.Start(t.compared), ls.renamed, input.stamp, input.fails.update).folders
    ensures t.cleaned == Cleanup.CleanupLoop(t.updated, ls.leftovers, input.fails.cleanup)
    ensures t.cleaned == RunAll(fs, input, ls)
    ensures IsListingOf(ls.main, t.copied.main) && !ls.cut
    ensures IsSelectionOf(ls.texts, t.extracted.extracted, ".txt")
    ensures IsListingOf(ls.repository, t.deduplicated.repository)
    ensures IsSelectionOf(ls.compared, t.deduplicated.extracted, ".txt")
    ensures IsListingOf(ls.exception, t.deduplicated.exception)
    ensures IsListingOf(ls.renamed, t.compared.extracted)
    ensures IsSelectionOf(ls.leftovers, t.updated.main, ".pdf")
  {
    UnfoldFirstThree(fs, input, ls);
    UnfoldLastThree(fs, input, ls);
    t := Trace(RunStages(fs, input, ls, 1), RunStages(fs, input, ls, 2), RunStages(fs, input, ls, 3),
               RunStages(fs, input, ls, 4), RunStages(fs, input, ls, 5), RunStages(fs, input, ls, 6));
  }

  /** The first half of Unfold: copy, extraction and local deduplication. */
  lemma UnfoldFirstThree(fs: Folders, input: Inputs, ls: Listings)
    requires RepoNaming.ValidStamp(input.stamp) && Fits(fs, input, ls, |StageOrder|, true)
    ensures RunStages(fs, input, ls, 1) == Intake.Walk(Intake.Start(fs), input.source, input.unreadable).folders
    ensures RunStages(fs, input, ls, 2) == Extraction.ExtractAll(RunStages(fs, input, ls, 1), ls.main, input.extractor, input.fails.extract)
    ensures RunStages(fs, input, ls, 3) == LocalDedup.Dedup(LocalDedup.Start(RunStages(fs, input, ls, 2)), ls.texts, input.fails.dedup).folders
    ensures IsListingOf(ls.main, RunStages(fs, input, ls, 1).main) && !ls.cut
    ensures IsSelectionOf(ls.texts, RunStages(fs, input, ls, 2).extracted, ".txt")
  {
    FitsPrefixes(fs, input, ls);
  }

  /** The second half of Unfold: comparison, repository update and cleanup. */
  lemma UnfoldLastThree(fs: Folders, input: Inputs, ls: Listings)
    requires RepoNaming.ValidStamp(input.stamp) && Fits(fs, input, ls, |StageOrder|, true)
    ensures RunStages(fs, input, ls, 4) ==
      RepoCompare.CrossCompare(RunStages(fs, input, ls, 3), ls.repository, ls.compared, ls.exception, input.fails.compare).folders
    ensures RunStages(fs, input, ls, 5) ==
      RepoUpdate.Update(RepoUpdate.Start(RunStages(fs, input, ls, 4)), ls.renamed, input.stamp, input.fails.update).folders
    ensures RunStages(fs, input, ls, 6) == Cleanup.CleanupLoop(RunStages(fs, input, ls, 5), ls.leftovers, input.fails.cleanup)
    ensures IsListingOf(ls.repository, RunStages(fs, input, ls, 3).repository)
    ensures IsSelectionOf(ls.compared, RunStages(fs, input, ls, 3).extracted, ".txt")
    ensures IsListingOf(ls.exception, RunStages(fs, input, ls, 3).exception)
    ensures IsListingOf(ls.renamed, RunStages(fs, input, ls, 4).extracted)
    ensures IsSelectionOf(ls.leftovers, RunStages(fs, input, ls, 5).main, ".pdf")
  {
    FitsPrefixes(fs, input, ls);
  }

  /** A complete run that fits is made of complete stages that fit. */
  lemma FitsPrefixes(fs: Folders, input: Inputs, ls: Listings)
    requires RepoNaming.ValidStamp(input.stamp) && Fits(fs, input, ls, |StageOrder|, true)
    ensures Fits(fs, input, ls, 5, true) && Fits(fs, input, ls, 4, true) && Fits(fs, input, ls, 3, true)
    ensures Fits(fs, input, ls, 2, true) && Fits(fs, input, ls, 1, true)
  {
    assert Fits(fs, input, ls, 5, true) && Fits(fs, input, ls, 4, true) && Fits(fs, input, ls, 3, true);
  }

  /**
   * One more stage whose listings fit the folders it started from extends a
   * run that fits; complete says whether that stage got through its loops.
   */
  lemma ExtendRun(fs: Folders, input: Inputs, ls: Listings, n: nat, before: Folders, after: Folders, complete: bool)
    requires RepoNaming.ValidStamp(input.stamp) && n < |StageOrder|
    requires Fits(fs, input, ls, n, true) && RunStages(fs, input, ls, n) == before
    requires StageFits(before, StageOrder[n], ls, complete) && after == RunStage(before, StageOrder[n], input, ls)
    ensures Fits(fs, input, ls, n + 1, complete) && RunStages(fs, input, ls, n + 1) == after
  {
  }

  /** A stage that got through its loops also fits as one that may have stopped. */
  lemma CompleteIsPartial(fs: Folders, input: Inputs, ls: Listings, n: nat)
    requires RepoNaming.ValidStamp(input.stamp) && n <= |StageOrder|
    requires Fits(fs, input, ls, n, true)
    ensures Fits(fs, input, ls, n, false)
  {
  }

  /** ls and other give the first n stages the same listings. */
  predicate AgreeUpTo(ls: Listings, other: Listings, n: nat) {
    && (n >= 2 ==> ls.main == other.main && ls.cut == other.cut)
    && (n >= 3 ==> ls.texts == other.texts)
    && (n >= 4 ==> ls.repository == other.repository && ls.compared == other.compared && ls.exception == other.exception)
    && (n >= 5 ==> ls.renamed == other.renamed)
    && (n >= 6 ==> ls.leftovers == other.leftovers)
  }

  /** The first n stages depend only on their own listings. */
  lemma OnlyEarlierListingsMatter(fs: Folders, input: Inputs, ls: Listings, other: Listings, n: nat)
    requires RepoNaming.ValidStamp(input.stamp) && n <= |StageOrder| && AgreeUpTo(ls, other, n)
    ensures RunStages(fs, input, ls, n) == RunStages(fs, input, other, n)
    ensures Fits(fs, input, ls, n, true) == Fits(fs, input, other, n, true)
    ensures Fits(fs, input, ls, n, false) == Fits(fs, input, other, n, false)
  {
    SameFolders(fs, input, ls, other, n);
    SameFits(fs, input, ls, other, n, true);
    SameFits(fs, input, ls, other, n, false);
  }

  lemma {:induction false} SameFolders(fs: Folders, input: Inputs, ls: Listings, other: Listings, n: nat)
    requires RepoNaming.ValidStamp(input.stamp) && n <= |StageOrder| && AgreeUpTo(ls, other, n)
    ensures RunStages(fs, input, ls, n) == RunStages(fs, input, other, n)
  {
    if n > 0 {
      SameFolders(fs, input, ls, other, n - 1);
      AgreeOnLast(ls, other, n);
      StageUsesOwnListings(RunStages(fs, input, ls, n - 1), StageOrder[n - 1], input, ls, other);
    }
  }

  lemma {:induction false} SameFits(fs: Folders, input: Inputs, ls: Listings, other: Listings, n: nat, complete: bool)
    requires RepoNaming.ValidStamp(input.stamp) && n <= |StageOrder| && AgreeUpTo(ls, other, n)
    ensures Fits(fs, input, ls, n, complete) == Fits(fs, input, other, n, complete)
  {
    if n > 0 {
      SameFits(fs, input, ls, other, n - 1, true);
      SameFolders(fs, input, ls, other, n - 1);
      AgreeOnLast(ls, other, n);
      StageUsesOwnListings(RunStages(fs, input, ls, n - 1), StageOrder[n - 1], input, ls, other);
    }
  }

  /** ls and other give stage the same listings. */
  predicate SameListings(stage: Stage, ls: Listings, other: Listings) {
    match stage
    case CopyPdfs => true
    case ExtractTexts => ls.main == other.main && ls.cut == other.cut
    case DeduplicateTexts => ls.texts == other.texts
    case CompareWithRepository =>
      ls.repository == other.repository && ls.compared == other.compared && ls.exception == other.exception
    case UpdateRepository => ls.renamed == other.renamed
    case CleanupMainFolder => ls.leftovers == other.leftovers
  }

  /** Listings that agree on the first n stages agree on the n-th. */
  lemma AgreeOnLast(ls: Listings, other: Listings, n: nat)
    requires 0 < n <= |StageOrder| && AgreeUpTo(ls, other, n)
    ensures SameListings(StageOrder[n - 1], ls, other)
  {
  }

  /** A stage reads only its own listings. */
  lemma StageUsesOwnListings(fs: Folders, stage: Stage, input: Inputs, ls: Listings, other: Listings)
    requires RepoNaming.ValidStamp(input.stamp) && SameListings(stage, ls, other)
    ensures RunStage(fs, stage, input, ls) == RunStage(fs, stage, input, other)
    ensures StageFits(fs, stage, ls, true) == StageFits(fs, stage, other, true)
    ensures StageFits(fs, stage, ls, false) == StageFits(fs, stage, other, false)
  {
  }

  /**
   * Filling in the listings of stage n, which ran from before to after,
   * extends a run of n complete stages by one.
   */
  lemma Step(fs: Folders, input: Inputs, ls: Listings, next: Listings, n: nat, stage: Stage,
             before: Folders, after: Folders, complete: bool)
    requires RepoNaming.ValidStamp(input.stamp) && n < |StageOrder| && StageOrder[n] == stage
    requires Fits(fs, input, ls, n, true) && RunStages(fs, input, ls, n) == before && AgreeUpTo(ls, next, n)
    requires StageFits(before, stage, next, complete) && after == RunStage(before, stage, input, next)
    ensures Fits(fs, input, next, n + 1, complete) && RunStages(fs, input, next, n + 1) == after
  {
    OnlyEarlierListingsMatter(fs, input, ls, next, n);
    ExtendRun(fs, input, next, n, before, after, complete);
  }

  /**
   * The converse of Unfold: folders produced stage by stage by the stage
   * specifications, each over listings of the folders it started from, are
   * a complete run whose listings fit.
   */
  lemma Fold(fs: Folders, input: Inputs, ls: Listings, t: Trace)
    requires RepoNaming.ValidStamp(input.stamp) && !ls.cut
    requires t.copied == Intake.Walk(Intake.Start(fs), input.source, input.unreadable).folders
    requires IsListingOf(ls.main, t.copied.main)
    requires t.extracted == Extraction.ExtractAll(t.copied, ls.main, input.extractor, input.fails.extract)
    requires IsSelectionOf(ls.texts, t.extracted.extracted, ".txt")
    requires t.deduplicated == LocalDedup.Dedup(LocalDedup.Start(t.extracted), ls.texts, input.fails.dedup).folders
    requires IsListingOf(ls.repository, t.deduplicated.repository)
    requires IsSelectionOf(ls.compared, t.deduplicated.extracted, ".txt")
    requires IsListingOf(ls.exception, t.deduplicated.exception)
    requires t.compared == RepoCompare.CrossCompare(t.deduplicated, ls.repository, ls.compared, ls.exception, input.fails.compare).folders
    requires IsListingOf(ls.renamed, t.compared.extracted)
    requires t.updated == RepoUpdate.Update(RepoUpdate.Start(t.compared), ls.renamed, input.stamp, input.fails.update).folders
    requires IsSelectionOf(ls.leftovers, t.updated.main, ".pdf")
    requires t.cleaned == Cleanup.CleanupLoop(t.updated, ls.leftovers, input.fails.cleanup)
    ensures Fits(fs, input, ls, |StageOrder|, true)
    ensures RunAll(fs, input, ls) == t.cleaned
  {
    FoldFirstThree(fs, input, ls, t);
    FoldLastThree(fs, input, ls, t);
  }

  /** The second half of Fold: comparison, repository update and cleanup. */
  lemma FoldLastThree(fs: Folders, input: Inputs, ls: Listings, t: Trace)
    requires RepoNaming.ValidStamp(input.stamp)
    requires Fits(fs, input, ls, 3, true) && RunStages(fs, input, ls, 3) == t.deduplicated
    requires IsListingOf(ls.repository, t.deduplicated.repository)
    requires IsSelectionOf(ls.compared, t.deduplicated.extracted, ".txt")
    requires IsListingOf(ls.exception, t.deduplicated.exception)
    requires t.compared == RepoCompare.CrossCompare(t.deduplicated, ls.repository, ls.compared, ls.exception, input.fails.compare).folders
    requires IsListingOf(ls.renamed, t.compared.extracted)
    requires t.updated == RepoUpdate.Update(RepoUpdate.Start(t.compared), ls.renamed, input.stamp, input.fails.update).folders
    requires IsSelectionOf(ls.leftovers, t.updated.main, ".pdf")
    requires t.cleaned == Cleanup.CleanupLoop(t.updated, ls.leftovers, input.fails.cleanup)
    ensures Fits(fs, input, ls, |StageOrder|, true) && RunAll(fs, input, ls) == t.cleaned
  {
    ExtendRun(fs, input, ls, 3, t.deduplicated, t.compared, true);
    ExtendRun(fs, input, ls, 4, t.compared, t.updated, true);
    ExtendRun(fs, input, ls, 5, t.updated, t.cleaned, true);
  }

  /** The first half of Fold: copy, extraction and local deduplication. */
  lemma FoldFirstThree(fs: Folders, input: Inputs, ls: Listings, t: Trace)
    requires RepoNaming.ValidStamp(input.stamp) && !ls.cut
    requires t.copied == Intake.Walk(Intake.Start(fs), input.source, input.unreadable).folders
    requires IsListingOf(ls.main, t.copied.main)
    requires t.extracted == Extraction.ExtractAll(t.copied, ls.main, input.extractor, input.fails.extract)
    requires IsSelectionOf(ls.texts, t.extracted.extracted, ".txt")
    requires t.deduplicated == LocalDedup.Dedup(LocalDedup.Start(t.extracted), ls.texts, input.fails.dedup).folders
    ensures Fits(fs, input, ls, 3, true) && RunStages(fs, input, ls, 3) == t.deduplicated
  {
    ExtendRun(fs, input, ls, 0, fs, t.copied, true);
    ExtendRun(fs, input, ls, 1, t.copied, t.extracted, true);
    ExtendRun(fs, input, ls, 2, t.extracted, t.deduplicated, true);
  }

  /** No stage overwrites or deletes a repository entry. */
  lemma RepositoryKeepsEntries(fs: Folders, input: Inputs, ls: Listings)
    requires RepoNaming.ValidStamp(input.stamp) && Fits(fs, input, ls, |StageOrder|, true)
    ensures var r := RunAll(fs, input, ls);
      forall n :: n in fs.repository ==> n in r.repository && r.repository[n] == fs.repository[n]
  {
    var t := Unfold(fs, input, ls);
    Intake.IntakeFrame(fs, input.source, input.unreadable);
    Extraction.ExtractionFrame(t.copied, ls.main, input.extractor, input.fails.extract);
    LocalDedup.DedupFrame(t.extracted, ls.texts, input.fails.dedup);
    var hashes := RepoCompare.RepoHashes(t.deduplicated.repository, ls.repository, input.fails.compare);
    RepoCompare.CompareFrame(t.deduplicated, ls.compared, hashes, input.fails.compare);
    var s := RepoCompare.Compare(RepoCompare.Start(t.deduplicated), ls.compared, hashes, input.fails.compare);
    RepoCompare.CopyExceptionsExact(s.folders, ls.exception, input.fails.compare);
    RepoUpdate.UpdateFrame(t.compared, ls.renamed, input.stamp, input.fails.update);
    Cleanup.CleanupLoopExact(t.updated, ls.leftovers, input.fails.cleanup);
  }

  /** After de-duplication with every read succeeding, no two .txt files of the extracted-text folder share a fingerprint. */
  lemma DeduplicatedTextsDistinct(fs: Folders, texts: seq<string>)
    requires IsSelectionOf(texts, fs.extracted, ".txt")
    ensures var r := LocalDedup.Dedup(LocalDedup.Start(fs), texts, {}).folders;
      forall x, y :: x in r.extracted && y in r.extracted && IsTxtName(x) && IsTxtName(y) && x != y ==>
        ContentHash(r.extracted[x]) != ContentHash(r.extracted[y])
  {
    var r := LocalDedup.Dedup(LocalDedup.Start(fs), texts, {}).folders;
    LocalDedup.DedupFrame(fs, texts, {});
    forall x, y | x in r.extracted && y in r.extracted && IsTxtName(x) && IsTxtName(y) && x != y
      ensures ContentHash(r.extracted[x]) != ContentHash(r.extracted[y])
    {
      LocalDedup.SurvivorPairDistinct(fs, texts, {}, x, y);
    }
  }

  /**
   * After a comparison in which no file operation fails, every .txt file
   * left in the extracted-text folder is unchanged and its fingerprint is
   * that of no .txt file of the repository.
   */
  lemma ComparedTextsAreNew(fs: Folders, repoListing: seq<string>, texts: seq<string>, exceptionListing: seq<string>)
    requires IsListingOf(repoListing, fs.repository) && IsSelectionOf(texts, fs.extracted, ".txt")
    ensures var r := RepoCompare.CrossCompare(fs, repoListing, texts, exceptionListing, {}).folders;
      && r.repository == fs.repository
      && forall x :: x in r.extracted && IsTxtName(x) ==>
        && x in fs.extracted && r.extracted[x] == fs.extracted[x]
        && ContentHash(r.extracted[x]) !in RepoCompare.RepoFingerprints(fs.repository, {})
  {
    var hashes := RepoCompare.RepoHashes(fs.repository, repoListing, {});
    RepoCompare.RepoHashesComplete(fs.repository, repoListing, {});
    RepoCompare.CompareFrame(fs, texts, hashes, {});
    var s := RepoCompare.Compare(RepoCompare.Start(fs), texts, hashes, {});
    RepoCompare.CopyExceptionsExact(s.folders, exceptionListing, {});
    var r := RepoCompare.CrossCompare(fs, repoListing, texts, exceptionListing, {}).folders;
    assert r.extracted == s.folders.extracted;
    forall x | x in r.extracted && IsTxtName(x)
      ensures ContentHash(r.extracted[x]) !in RepoCompare.RepoFingerprints(fs.repository, {})
    {
      var i :| 0 <= i < |texts| && texts[i] == x;
      RepoCompare.CompareKeepsText(fs, texts, hashes, {}, i);
    }
  }

  /**
   * Every entry update_repository adds is logged: it holds the text of a
   * .txt file of the extracted-text folder the stage started from.
   */
  lemma NewEntrySource(fs: Folders, renamed: seq<string>, st: RepoNaming.Stamp, fails: set<FileId>, n: string) returns (k: nat)
    requires RepoNaming.ValidStamp(st)
    requires var r := RepoUpdate.Update(RepoUpdate.Start(fs), renamed, st, fails).folders;
      n in r.repository && n !in fs.repository
    ensures var u := RepoUpdate.Update(RepoUpdate.Start(fs), renamed, st, fails);
      && k < |u.placed| && u.placed[k].name == n
      && IsTxtName(u.placed[k].source) && u.placed[k].source in fs.extracted
      && u.folders.repository[n] == fs.extracted[u.placed[k].source]
  {
    var u := RepoUpdate.Update(RepoUpdate.Start(fs), renamed, st, fails);
    RepoUpdate.UpdateNames(fs, renamed, st, fails);
    RepoUpdate.UpdateContents(fs, renamed, st, fails);
    var names := RepoUpdate.Names(u.placed);
    k :| 0 <= k < |names| && names[k] == n;
    assert var q := RepoUpdate.Update(RepoUpdate.Start(fs), renamed, st, fails);
      RepoUpdate.Movable(fs, fails, q.placed[k].source) && q.folders.repository[q.placed[k].name] == fs.extracted[q.placed[k].source];
  }

  /** .txt files of d with pairwise distinct fingerprints, none in known. */
  ghost predicate FreshTexts(d: Dir, known: set<string>) {
    && (forall x :: x in d && IsTxtName(x) ==> ContentHash(d[x]) !in known)
    && (forall x, y :: x in d && y in d && IsTxtName(x) && IsTxtName(y) && x != y ==> ContentHash(d[x]) != ContentHash(d[y]))
  }

  /**
   * When the texts update_repository starts from are fresh, so are the
   * entries it adds: their fingerprints are pairwise distinct and not in
   * known.
   */
  lemma UpdateAddsFreshEntries(fs: Folders, renamed: seq<string>, st: RepoNaming.Stamp, fails: set<FileId>, known: set<string>)
    requires RepoNaming.ValidStamp(st) && IsListingOf(renamed, fs.extracted)
    requires FreshTexts(fs.extracted, known)
    ensures var r := RepoUpdate.Update(RepoUpdate.Start(fs), renamed, st, fails).folders;
      && (forall n :: n in r.repository && n !in fs.repository ==> ContentHash(r.repository[n]) !in known)
      && (forall n, m :: n in r.repository && n !in fs.repository && m in r.repository && m !in fs.repository && n != m ==>
            ContentHash(r.repository[n]) != ContentHash(r.repository[m]))
  {
    var u := RepoUpdate.Update(RepoUpdate.Start(fs), renamed, st, fails);
    forall n | n in u.folders.repository && n !in fs.repository
      ensures ContentHash(u.folders.repository[n]) !in known
    {
      var k := NewEntrySource(fs, renamed, st, fails, n);
    }
    forall n, m | n in u.folders.repository && n !in fs.repository && m in u.folders.repository && m !in fs.repository && n != m
      ensures ContentHash(u.folders.repository[n]) != ContentHash(u.folders.repository[m])
    {
      var k := NewEntrySource(fs, renamed, st, fails, n);
      var l := NewEntrySource(fs, renamed, st, fails, m);
      RepoUpdate.UpdateSourcesDistinct(fs, renamed, st, fails);
      assert RepoUpdate.Sources(u.placed)[k] != RepoUpdate.Sources(u.placed)[l];
    }
  }

  /**
   * What the pipeline is for: in a complete run in which no file operation
   * of de-duplication or of the comparison fails, the texts added to the repository have pairwise distinct
   * fingerprints, none equal to the fingerprint of a .txt file the
   * repository already held, and no existing entry changes.
   */
  lemma NoDuplicateEntersRepository(fs: Folders, input: Inputs, ls: Listings)
    requires RepoNaming.ValidStamp(input.stamp) && Fits(fs, input, ls, |StageOrder|, true)
    requires input.fails.dedup == {} && input.fails.compare == {}
    ensures var r := RunAll(fs, input, ls);
      && (forall n :: n in fs.repository ==> n in r.repository && r.repository[n] == fs.repository[n])
      && (forall n, o :: n in r.repository && n !in fs.repository && o in fs.repository && IsTxtName(o) ==>
            ContentHash(r.repository[n]) != ContentHash(fs.repository[o]))
      && (forall n, m :: n in r.repository && n !in fs.repository && m in r.repository && m !in fs.repository && n != m ==>
            ContentHash(r.repository[n]) != ContentHash(r.repository[m]))
  {
    var t := Unfold(fs, input, ls);
    var r := RunAll(fs, input, ls);
    RepositoryKeepsEntries(fs, input, ls);
    var known := RepoCompare.RepoFingerprints(fs.repository, {});
    assert t.deduplicated.repository == fs.repository by {
      Intake.IntakeFrame(fs, input.source, input.unreadable);
      Extraction.ExtractionFrame(t.copied, ls.main, input.extractor, input.fails.extract);
      LocalDedup.DedupFrame(t.extracted, ls.texts, input.fails.dedup);
    }
    assert FreshTexts(t.compared.extracted, known) by {
      DeduplicatedTextsDistinct(t.extracted, ls.texts);
      ComparedTextsAreNew(t.deduplicated, ls.repository, ls.compared, ls.exception);
    }
    UpdateAddsFreshEntries(t.compared, ls.renamed, input.stamp, input.fails.update, known);
    assert t.compared.repository == fs.repository by {
      ComparedTextsAreNew(t.deduplicated, ls.repository, ls.compared, ls.exception);
    }
    assert r.repository == t.updated.repository by {
      Cleanup.CleanupLoopExact(t.updated, ls.leftovers, input.fails.cleanup);
    }
    forall n, o | n in r.repository && n !in fs.repository && o in fs.repository && IsTxtName(o)
      ensures ContentHash(r.repository[n]) != ContentHash(fs.repository[o])
    {
      assert RepoCompare.RepoReadable(fs.repository, {}, o);
    }
  }

  /** With no failing move out of main, a complete run leaves no ".pdf" name in the main folder. */
  lemma MainFolderEndsWithoutPdfs(fs: Folders, input: Inputs, ls: Listings)
    requires RepoNaming.ValidStamp(input.stamp) && Fits(fs, input, ls, |StageOrder|, true)
    requires forall n :: FileId(Main, n) !in input.fails.cleanup
    ensures forall n :: n in RunAll(fs, input, ls).main ==> !IsPdfName(n)
  {
    var t := Unfold(fs, input, ls);
    Cleanup.CleanupLeavesNoPdf(t.updated, ls.leftovers, input.fails.cleanup);
  }
}
