/**
 * The script driver: the module-level stage functions, each working in
 * place on the folders, and main() running them in order.  Every stage is
 * proved to leave the folders as its stage specification says for the
 * listing it actually went through.
 */
module DfFinal {
  import opened Text
  import opened Fingerprint
  import opened FileSystem
  import Intake
  import Extraction
  import LocalDedup
  import RepoCompare
  import opened RepoNaming
  import RepoUpdate
  import Cleanup
  import Pipeline

  /**
   * copy_pdfs_to_main_folder over the files the walk visits, in order.  The
   * first copy that raises ends the walk, and the counts stay as they were.
   */
  method CopyPdfsToMainFolder(fs: FileStore, files: seq<Intake.SourceFile>, unreadable: set<string>)
    returns (pdfCount: nat, otherCount: nat)
    modifies fs
    ensures var r := Intake.Walk(Intake.Start(old(fs.Snapshot())), files, unreadable);
      fs.Snapshot() == r.folders && pdfCount == r.pdfCount && otherCount == r.otherCount
  {
    ghost var init := fs.Snapshot();
    pdfCount, otherCount := 0, 0;
    var i := 0;
    while i < |files|
      invariant 0 <= i <= |files|
      invariant var s := Intake.Walk(Intake.Start(init), files[..i], unreadable);
        !s.aborted && fs.Snapshot() == s.folders && pdfCount == s.pdfCount && otherCount == s.otherCount
    {
      var file := files[i];
      PrefixStep(files, i);
      if file.path in unreadable {
        Intake.FailureAbortsWalk(Intake.Start(init), files, unreadable, i);
        return;
      }
      pdfCount, otherCount := Intake.CopyOne(fs, file, unreadable, pdfCount, otherCount);
      i := i + 1;
    }
    assert files[..i] == files;
  }

  /** extract_texts over the listing of the main folder it takes at its start. */
  method ExtractTexts(fs: FileStore, ex: Extraction.Extractor, fails: set<FileId>) returns (listing: seq<string>)
    modifies fs
    ensures IsListingOf(listing, old(fs.main))
    ensures fs.Snapshot() == Extraction.ExtractAll(old(fs.Snapshot()), listing, ex, fails)
  {
    ghost var init := fs.Snapshot();
    listing := ListDir(fs.main);
    var i := 0;
    while i < |listing|
      invariant 0 <= i <= |listing|
      invariant fs.Snapshot() == Extraction.ExtractAll(init, listing[..i], ex, fails)
    {
      var f := listing[i];
      PrefixStep(listing, i);
      if IsPdfName(f) && f in fs.main {
        var res := Extraction.Extract(ex, fs.main[f]);
        Extraction.StoreOne(fs, f, res, ex, fails, false);
      }
      i := i + 1;
    }
    assert listing[..i] == listing;
  }

  /** deduplicate_text_files: files is the .txt part of the listing it takes. */
  method DeduplicateTextFiles(fs: FileStore, fails: set<FileId>) returns (files: seq<string>, removed: nat)
    modifies fs
    ensures IsSelectionOf(files, old(fs.extracted), ".txt")
    ensures var r := LocalDedup.Dedup(LocalDedup.Start(old(fs.Snapshot())), files, fails);
      fs.Snapshot() == r.folders && removed == r.removed
  {
    ghost var init := fs.Snapshot();
    var listing := ListDir(fs.extracted);
    files := Select(listing, ".txt");
    var seen: map<string, string> := map[];
    removed := 0;
    var i := 0;
    while i < |files|
      invariant 0 <= i <= |files|
      invariant LocalDedup.Dedup(LocalDedup.Start(init), files[..i], fails) == LocalDedup.DedupState(fs.Snapshot(), seen, removed)
    {
      var f := files[i];
      PrefixStep(files, i);
      seen, removed := LocalDedup.DedupOne(fs, f, seen, removed, fails);
      i := i + 1;
    }
    assert files[..i] == files;
  }

  /**
   * The first loop of cross_compare_with_repository.  It changes nothing,
   * and whatever order the listing comes in, repo_hashes ends up holding
   * exactly the fingerprints of the readable repository text files.
   */
  method CollectRepoHashes(fs: FileStore, fails: set<FileId>) returns (listing: seq<string>, hashes: set<string>)
    ensures IsListingOf(listing, fs.repository)
    ensures hashes == RepoCompare.RepoHashes(fs.repository, listing, fails)
    ensures hashes == RepoCompare.RepoFingerprints(fs.repository, fails)
  {
    listing := ListDir(fs.repository);
    hashes := {};
    var i := 0;
    while i < |listing|
      invariant 0 <= i <= |listing|
      invariant hashes == RepoCompare.RepoHashes(fs.repository, listing[..i], fails)
    {
      var f := listing[i];
      PrefixStep(listing, i);
      if IsTxtName(f) && FileId(Repository, f) !in fails {
        assert f in listing;
        hashes := hashes + {ContentHash(fs.repository[f])};
      }
      i := i + 1;
    }
    assert listing[..i] == listing;
    RepoCompare.RepoHashesComplete(fs.repository, listing, fails);
  }

  /** The second loop: each listed text against the fixed repo_hashes. */
  method ClassifyTexts(fs: FileStore, texts: seq<string>, hashes: set<string>, fails: set<FileId>)
    returns (uniqueCount: nat, duplicateCount: nat)
    modifies fs
    ensures var s := RepoCompare.Compare(RepoCompare.Start(old(fs.Snapshot())), texts, hashes, fails);
      fs.Snapshot() == s.folders && uniqueCount == s.uniqueCount && duplicateCount == s.duplicateCount
  {
    ghost var init := fs.Snapshot();
    uniqueCount, duplicateCount := 0, 0;
    var i := 0;
    while i < |texts|
      invariant 0 <= i <= |texts|
      invariant RepoCompare.Compare(RepoCompare.Start(init), texts[..i], hashes, fails)
        == RepoCompare.CompareState(fs.Snapshot(), uniqueCount, duplicateCount)
    {
      var f := texts[i];
      PrefixStep(texts, i);
      uniqueCount, duplicateCount := RepoCompare.ClassifyOne(fs, f, hashes, fails, uniqueCount, duplicateCount);
      i := i + 1;
    }
    assert texts[..i] == texts;
  }

  /** The third loop: the ".pdf" files of Exception are copied into Unique. */
  method CopyExceptionPdfs(fs: FileStore, fails: set<FileId>) returns (listing: seq<string>)
    modifies fs
    ensures IsListingOf(listing, old(fs.exception))
    ensures fs.Snapshot() == RepoCompare.CopyExceptions(old(fs.Snapshot()), listing, fails)
  {
    ghost var init := fs.Snapshot();
    listing := ListDir(fs.exception);
    var i := 0;
    while i < |listing|
      invariant 0 <= i <= |listing|
      invariant fs.Snapshot() == RepoCompare.CopyExceptions(init, listing[..i], fails)
    {
      var f := listing[i];
      PrefixStep(listing, i);
      RepoCompare.CopyOne(fs, f, fails);
      i := i + 1;
    }
    assert listing[..i] == listing;
  }

  /** cross_compare_with_repository: the three loops, each over its own listing. */
  method CrossCompareWithRepository(fs: FileStore, fails: set<FileId>)
    returns (repoListing: seq<string>, texts: seq<string>, exceptionListing: seq<string>, uniqueCount: nat, duplicateCount: nat)
    modifies fs
    ensures IsListingOf(repoListing, old(fs.repository))
    ensures IsSelectionOf(texts, old(fs.extracted), ".txt")
    ensures IsListingOf(exceptionListing, old(fs.exception))
    ensures var s := RepoCompare.CrossCompare(old(fs.Snapshot()), repoListing, texts, exceptionListing, fails);
      fs.Snapshot() == s.folders && uniqueCount == s.uniqueCount && duplicateCount == s.duplicateCount
  {
    ghost var init := fs.Snapshot();
    var hashes;
    repoListing, hashes := CollectRepoHashes(fs, fails);
    var listing := ListDir(fs.extracted);
    texts := Select(listing, ".txt");
    uniqueCount, duplicateCount := ClassifyTexts(fs, texts, hashes, fails);
    RepoCompare.CompareFrame(init, texts, hashes, fails);
    exceptionListing := CopyExceptionPdfs(fs, fails);
  }

  /**
   * update_repository with the timestamp it formats at its start: the .txt
   * names of the extracted-text listing are moved into the repository under
   * probe names; the probe also runs for a file whose move then fails.
   */
  method UpdateRepository(fs: FileStore, st: Stamp, fails: set<FileId>) returns (listing: seq<string>, moved: nat)
    requires ValidStamp(st)
    modifies fs
    ensures IsListingOf(listing, old(fs.extracted))
    ensures var u := RepoUpdate.Update(RepoUpdate.Start(old(fs.Snapshot())), listing, st, fails);
      fs.Snapshot() == u.folders && moved == u.moved
  {
    ghost var init := fs.Snapshot();
    ghost var placed: seq<RepoUpdate.Placement> := [];
    listing := ListDir(fs.extracted);
    moved := 0;
    var i := 0;
    while i < |listing|
      invariant 0 <= i <= |listing|
      invariant RepoUpdate.Update(RepoUpdate.Start(init), listing[..i], st, fails)
        == RepoUpdate.UpdateState(fs.Snapshot(), moved, placed)
    {
      var f := listing[i];
      PrefixStep(listing, i);
      moved, placed := RepoUpdate.UpdateOne(fs, f, st, fails, moved, placed);
      i := i + 1;
    }
    assert listing[..i] == listing;
  }

  /** cleanup_main_pdf_folder: leftover_files is the ".pdf" part of the main-folder listing. */
  method CleanupMainPdfFolder(fs: FileStore, fails: set<FileId>) returns (leftovers: seq<string>)
    modifies fs
    ensures IsSelectionOf(leftovers, old(fs.main), ".pdf")
    ensures fs.Snapshot() == Cleanup.CleanupLoop(old(fs.Snapshot()), leftovers, fails)
  {
    ghost var init := fs.Snapshot();
    var listing := ListDir(fs.main);
    leftovers := Select(listing, ".pdf");
    if leftovers == [] {
      return;
    }
    var i := 0;
    while i < |leftovers|
      invariant 0 <= i <= |leftovers|
      invariant fs.Snapshot() == Cleanup.CleanupLoop(init, leftovers[..i], fails)
    {
      var f := leftovers[i];
      PrefixStep(leftovers, i);
      Cleanup.CleanupOne(fs, f, fails);
      i := i + 1;
    }
    assert leftovers[..i] == leftovers;
  }

  /**
   * main(): the six stages in order.  The listings each stage went through
   * fit the folders that stage started from, and the folders end as the
   * composition of the stage specifications over those listings.
   */
  method RunPipeline(fs: FileStore, input: Pipeline.Inputs) returns (ls: Pipeline.Listings)
    requires ValidStamp(input.stamp)
    modifies fs
    ensures Pipeline.Fits(old(fs.Snapshot()), input, ls, |Pipeline.StageOrder|, true)
    ensures fs.Snapshot() == Pipeline.RunAll(old(fs.Snapshot()), input, ls)
  {
    ghost var f0 := fs.Snapshot();
    var pdfCount, otherCount := CopyPdfsToMainFolder(fs, input.source, input.unreadable);
    ghost var f1 := fs.Snapshot();
    var main := ExtractTexts(fs, input.extractor, input.fails.extract);
    ghost var f2 := fs.Snapshot();
    var texts, removed := DeduplicateTextFiles(fs, input.fails.dedup);
    ghost var f3 := fs.Snapshot();
    var repository, compared, exception, uniqueCount, duplicateCount := CrossCompareWithRepository(fs, input.fails.compare);
    ghost var f4 := fs.Snapshot();
    var renamed, moved := UpdateRepository(fs, input.stamp, input.fails.update);
    ghost var f5 := fs.Snapshot();
    var leftovers := CleanupMainPdfFolder(fs, input.fails.cleanup);
    ls := Pipeline.Listings(main, false, texts, repository, compared, exception, renamed, leftovers);
    Pipeline.Fold(f0, input, ls, Pipeline.Trace(f1, f2, f3, f4, f5, fs.Snapshot()));
  }
}
