/**
 * The GUI driver: InvoicePipeline runs the same six stages on a worker
 * thread, and polls a stop flag the GUI thread may set at any moment.  A
 * stage called with the flag set does nothing; a loop that sees it set stops
 * before its next item; run_full_pipeline returns after the first stage
 * that ends with the flag set.  So every run is the stage specifications
 * applied to prefixes of the listings: complete up to some stage, and
 * possibly cut short within that stage.
 */
module PyQtFinal {
  import opened Text
  import opened Fingerprint
  import opened FileSystem
  import Intake
  import opened Extraction
  import LocalDedup
  import RepoCompare
  import opened RepoNaming
  import RepoUpdate
  import Cleanup
  import opened Pipeline
  import opened Wrappers

  /**
   * The threading.Event shared with the GUI thread.  Its clear() runs
   * before the worker starts; set() is the Stop button or closing the
   * window.
   */
  class StopEvent {
    var raised: bool

    constructor ()
      ensures !raised
    {
      raised := false;
    }

    /** set(): the flag stays raised from now on. */
    method Set()
      modifies this
      ensures raised
    {
      raised := true;
    }

    /**
     * is_set() on the worker thread: the GUI thread may have raised the
     * flag since the last poll, never lowered it; the answer is the flag.
     */
    method IsSet() returns (r: bool)
      modifies this
      ensures old(raised) ==> raised
      ensures r == raised
    {
      var other: bool :| true;
      raised := raised || other;
      r := raised;
    }
  }

  class InvoicePipeline {
    /** The six folders under base_folder and the caller's repository folder. */
    const fs: FileStore
    const stopEvent: StopEvent
    /** pdfplumber and, through poppler_path and tesseract_path, OCR. */
    const extractor: Extractor

    constructor (fs: FileStore, stopEvent: StopEvent, extractor: Extractor)
      ensures this.fs == fs && this.stopEvent == stopEvent && this.extractor == extractor
    {
      this.fs := fs;
      this.stopEvent := stopEvent;
      this.extractor := extractor;
    }

    /**
     * copy_pdfs_to_main_folder: the walk up to the file before which the
     * flag was seen (all of it when it never was).  A failing copy ends the
     * walk as in the script, and used then covers the files it skipped.
     */
    method CopyPdfsToMainFolder(files: seq<Intake.SourceFile>, unreadable: set<string>)
      returns (used: seq<Intake.SourceFile>, pdfCount: nat, otherCount: nat)
      modifies fs, stopEvent
      ensures old(stopEvent.raised) ==> stopEvent.raised
      ensures |used| <= |files| && used == files[..|used|]
      ensures var r := Intake.Walk(Intake.Start(old(fs.Snapshot())), used, unreadable);
        fs.Snapshot() == r.folders && pdfCount == r.pdfCount && otherCount == r.otherCount
      ensures old(stopEvent.raised) ==> used == []
      ensures !stopEvent.raised ==> used == files
    {
      ghost var init := fs.Snapshot();
      used, pdfCount, otherCount := [], 0, 0;
      var stop := stopEvent.IsSet();
      if stop {
        return;
      }
      var i := 0;
      while i < |files|
        invariant 0 <= i <= |files| && used == files[..i]
        invariant !old(stopEvent.raised)
        invariant var s := Intake.Walk(Intake.Start(init), files[..i], unreadable);
          !s.aborted && fs.Snapshot() == s.folders && pdfCount == s.pdfCount && otherCount == s.otherCount
      {
        stop := stopEvent.IsSet();
        if stop {
          break;
        }
        var file := files[i];
        PrefixStep(files, i);
        if file.path in unreadable {
          Intake.FailureAbortsWalk(Intake.Start(init), files, unreadable, i);
          assert files[..|files|] == files;
          used := files;
          return;
        }
        pdfCount, otherCount := Intake.CopyOne(fs, file, unreadable, pdfCount, otherCount);
        i := i + 1;
        used := files[..i];
      }
    }

    /** extract_text_from_pdf: ("", None) when the flag is seen set, the extractor's answer otherwise. */
    method ExtractTextFromPdf(pdf: string) returns (r: Extraction)
      modifies stopEvent
      ensures old(stopEvent.raised) ==> stopEvent.raised
      ensures stopEvent.raised ==> r == Extraction("", None)
      ensures !stopEvent.raised ==> r == Extract(extractor, pdf)
    {
      var stop := stopEvent.IsSet();
      if stop {
        return Extraction("", None);
      }
      r := Extract(extractor, pdf);
    }

    /**
     * extract_texts up to the name before which the flag was seen.  When
     * extract_text_from_pdf was the one to see it (cut), the last PDF
     * reached was treated as text-less and moved to Exception.
     */
    method ExtractTexts(fails: set<FileId>) returns (used: seq<string>, ghost cut: bool)
      modifies fs, stopEvent
      ensures old(stopEvent.raised) ==> stopEvent.raised
      ensures IsPartialListingOf(used, old(fs.main))
      ensures fs.Snapshot() == ExtractRun(old(fs.Snapshot()), used, extractor, fails, cut)
      ensures cut ==> stopEvent.raised
      ensures old(stopEvent.raised) ==> used == []
      ensures !stopEvent.raised ==> IsListingOf(used, old(fs.main))
    {
      ghost var init := fs.Snapshot();
      used, cut := [], false;
      var stop := stopEvent.IsSet();
      if stop {
        return;
      }
      var listing := ListDir(fs.main);
      var i := 0;
      while i < |listing|
        invariant 0 <= i <= |listing| && used == listing[..i]
        invariant !old(stopEvent.raised)
        invariant cut ==> stopEvent.raised
        invariant fs.Snapshot() == ExtractRun(init, listing[..i], extractor, fails, cut)
      {
        stop := stopEvent.IsSet();
        if stop {
          break;
        }
        var f := listing[i];
        PrefixStep(listing, i);
        if IsPdfName(f) && f in fs.main {
          var res := ExtractTextFromPdf(fs.main[f]);
          cut := stopEvent.raised;
          StoreOne(fs, f, res, extractor, fails, cut);
        }
        i := i + 1;
        used := listing[..i];
      }
      assert listing[..|listing|] == listing;
    }

    /** deduplicate_text_files up to the text before which the flag was seen. */
    method DeduplicateTextFiles(fails: set<FileId>) returns (used: seq<string>, removed: nat)
      modifies fs, stopEvent
      ensures old(stopEvent.raised) ==> stopEvent.raised
      ensures IsPartialSelectionOf(used, old(fs.extracted), ".txt")
      ensures var r := LocalDedup.Dedup(LocalDedup.Start(old(fs.Snapshot())), used, fails);
        fs.Snapshot() == r.folders && removed == r.removed
      ensures old(stopEvent.raised) ==> used == []
      ensures !stopEvent.raised ==> IsSelectionOf(used, old(fs.extracted), ".txt")
    {
      ghost var init := fs.Snapshot();
      used, removed := [], 0;
      var stop := stopEvent.IsSet();
      if stop {
        return;
      }
      var listing := ListDir(fs.extracted);
      var files := Select(listing, ".txt");
      SelectionOfListing(listing, fs.extracted, ".txt");
      var seen: map<string, string> := map[];
      var i := 0;
      while i < |files|
        invariant 0 <= i <= |files| && used == files[..i]
        invariant !old(stopEvent.raised)
        invariant LocalDedup.Dedup(LocalDedup.Start(init), files[..i], fails) == LocalDedup.DedupState(fs.Snapshot(), seen, removed)
      {
        stop := stopEvent.IsSet();
        if stop {
          break;
        }
        var f := files[i];
        PrefixStep(files, i);
        seen, removed := LocalDedup.DedupOne(fs, f, seen, removed, fails);
        i := i + 1;
        used := files[..i];
      }
      SelectionPrefix(files, init.extracted, ".txt", i);
      assert files[..|files|] == files;
    }

    /** The first loop of cross_compare_with_repository, up to the flag. */
    method CollectRepoHashes(fails: set<FileId>) returns (used: seq<string>, hashes: set<string>)
      modifies stopEvent
      ensures old(stopEvent.raised) ==> stopEvent.raised
      ensures IsPartialListingOf(used, fs.repository)
      ensures hashes == RepoCompare.RepoHashes(fs.repository, used, fails)
      ensures !stopEvent.raised ==> IsListingOf(used, fs.repository) && hashes == RepoCompare.RepoFingerprints(fs.repository, fails)
    {
      var listing := ListDir(fs.repository);
      used, hashes := [], {};
      var i := 0;
      while i < |listing|
        invariant 0 <= i <= |listing| && used == listing[..i]
        invariant old(stopEvent.raised) ==> stopEvent.raised
        invariant hashes == RepoCompare.RepoHashes(fs.repository, listing[..i], fails)
      {
        var stop := stopEvent.IsSet();
        if stop {
          break;
        }
        var f := listing[i];
        PrefixStep(listing, i);
        if IsTxtName(f) && FileId(Repository, f) !in fails {
          assert f in listing;
          hashes := hashes + {ContentHash(fs.repository[f])};
        }
        i := i + 1;
        used := listing[..i];
      }
      assert listing[..|listing|] == listing;
      if !stopEvent.raised {
        RepoCompare.RepoHashesComplete(fs.repository, used, fails);
      }
    }

    /** The second loop, up to the flag. */
    method ClassifyTexts(texts: seq<string>, hashes: set<string>, fails: set<FileId>)
      returns (used: seq<string>, uniqueCount: nat, duplicateCount: nat)
      modifies fs, stopEvent
      ensures old(stopEvent.raised) ==> stopEvent.raised
      ensures |used| <= |texts| && used == texts[..|used|]
      ensures var s := RepoCompare.Compare(RepoCompare.Start(old(fs.Snapshot())), used, hashes, fails);
        fs.Snapshot() == s.folders && uniqueCount == s.uniqueCount && duplicateCount == s.duplicateCount
      ensures old(stopEvent.raised) ==> used == []
      ensures !stopEvent.raised ==> used == texts
    {
      ghost var init := fs.Snapshot();
      used, uniqueCount, duplicateCount := [], 0, 0;
      var i := 0;
      while i < |texts|
        invariant 0 <= i <= |texts| && used == texts[..i]
        invariant old(stopEvent.raised) ==> stopEvent.raised && i == 0
        invariant RepoCompare.Compare(RepoCompare.Start(init), texts[..i], hashes, fails)
          == RepoCompare.CompareState(fs.Snapshot(), uniqueCount, duplicateCount)
      {
        var stop := stopEvent.IsSet();
        if stop {
          break;
        }
        var f := texts[i];
        PrefixStep(texts, i);
        uniqueCount, duplicateCount := RepoCompare.ClassifyOne(fs, f, hashes, fails, uniqueCount, duplicateCount);
        i := i + 1;
        used := texts[..i];
      }
      assert texts[..|texts|] == texts;
    }

    /** The third loop, up to the flag. */
    method CopyExceptionPdfs(fails: set<FileId>) returns (used: seq<string>)
      modifies fs, stopEvent
      ensures old(stopEvent.raised) ==> stopEvent.raised
      ensures IsPartialListingOf(used, old(fs.exception))
      ensures fs.Snapshot() == RepoCompare.CopyExceptions(old(fs.Snapshot()), used, fails)
      ensures old(stopEvent.raised) ==> used == []
      ensures !stopEvent.raised ==> IsListingOf(used, old(fs.exception))
    {
      ghost var init := fs.Snapshot();
      var listing := ListDir(fs.exception);
      used := [];
      var i := 0;
      while i < |listing|
        invariant 0 <= i <= |listing| && used == listing[..i]
        invariant old(stopEvent.raised) ==> stopEvent.raised && i == 0
        invariant fs.exception == init.exception
        invariant fs.Snapshot() == RepoCompare.CopyExceptions(init, listing[..i], fails)
      {
        var stop := stopEvent.IsSet();
        if stop {
          break;
        }
        var f := listing[i];
        PrefixStep(listing, i);
        RepoCompare.CopyOne(fs, f, fails);
        i := i + 1;
        used := listing[..i];
      }
      assert listing[..|listing|] == listing;
    }

    /** cross_compare_with_repository: each of its three loops up to the flag. */
    method CrossCompareWithRepository(fails: set<FileId>)
      returns (repoUsed: seq<string>, textsUsed: seq<string>, exceptionUsed: seq<string>, uniqueCount: nat, duplicateCount: nat)
      modifies fs, stopEvent
      ensures old(stopEvent.raised) ==> stopEvent.raised
      ensures IsPartialListingOf(repoUsed, old(fs.repository))
      ensures IsPartialSelectionOf(textsUsed, old(fs.extracted), ".txt")
      ensures IsPartialListingOf(exceptionUsed, old(fs.exception))
      ensures var s := RepoCompare.CrossCompare(old(fs.Snapshot()), repoUsed, textsUsed, exceptionUsed, fails);
        fs.Snapshot() == s.folders && uniqueCount == s.uniqueCount && duplicateCount == s.duplicateCount
      ensures old(stopEvent.raised) ==> repoUsed == [] && textsUsed == [] && exceptionUsed == []
      ensures textsUsed != [] ==> IsListingOf(repoUsed, old(fs.repository))
      ensures exceptionUsed != [] ==>
        IsListingOf(repoUsed, old(fs.repository)) && IsSelectionOf(textsUsed, old(fs.extracted), ".txt")
      ensures !stopEvent.raised ==>
        && IsListingOf(repoUsed, old(fs.repository))
        && IsSelectionOf(textsUsed, old(fs.extracted), ".txt")
        && IsListingOf(exceptionUsed, old(fs.exception))
    {
      ghost var init := fs.Snapshot();
      repoUsed, textsUsed, exceptionUsed, uniqueCount, duplicateCount := [], [], [], 0, 0;
      var stop := stopEvent.IsSet();
      if stop {
        return;
      }
      var hashes;
      repoUsed, hashes := CollectRepoHashes(fails);
      var listing := ListDir(fs.extracted);
      var texts := Select(listing, ".txt");
      textsUsed, uniqueCount, duplicateCount := ClassifyTexts(texts, hashes, fails);
      RepoCompare.CompareFrame(init, textsUsed, hashes, fails);
      exceptionUsed := CopyExceptionPdfs(fails);
    }

    /** update_repository up to the name before which the flag was seen. */
    method UpdateRepository(st: Stamp, fails: set<FileId>) returns (used: seq<string>, moved: nat)
      requires ValidStamp(st)
      modifies fs, stopEvent
      ensures old(stopEvent.raised) ==> stopEvent.raised
      ensures IsPartialListingOf(used, old(fs.extracted))
      ensures var u := RepoUpdate.Update(RepoUpdate.Start(old(fs.Snapshot())), used, st, fails);
        fs.Snapshot() == u.folders && moved == u.moved
      ensures old(stopEvent.raised) ==> used == []
      ensures !stopEvent.raised ==> IsListingOf(used, old(fs.extracted))
    {
      ghost var init := fs.Snapshot();
      ghost var placed: seq<RepoUpdate.Placement> := [];
      used, moved := [], 0;
      var stop := stopEvent.IsSet();
      if stop {
        return;
      }
      var listing := ListDir(fs.extracted);
      var i := 0;
      while i < |listing|
        invariant 0 <= i <= |listing| && used == listing[..i]
        invariant !old(stopEvent.raised)
        invariant RepoUpdate.Update(RepoUpdate.Start(init), listing[..i], st, fails)
          == RepoUpdate.UpdateState(fs.Snapshot(), moved, placed)
      {
        stop := stopEvent.IsSet();
        if stop {
          break;
        }
        var f := listing[i];
        PrefixStep(listing, i);
        moved, placed := RepoUpdate.UpdateOne(fs, f, st, fails, moved, placed);
        i := i + 1;
        used := listing[..i];
      }
      assert listing[..|listing|] == listing;
    }

    /** cleanup_main_pdf_folder up to the leftover before which the flag was seen. */
    method CleanupMainPdfFolder(fails: set<FileId>) returns (used: seq<string>)
      modifies fs, stopEvent
      ensures old(stopEvent.raised) ==> stopEvent.raised
      ensures IsPartialSelectionOf(used, old(fs.main), ".pdf")
      ensures fs.Snapshot() == Cleanup.CleanupLoop(old(fs.Snapshot()), used, fails)
      ensures old(stopEvent.raised) ==> used == []
      ensures !stopEvent.raised ==> IsSelectionOf(used, old(fs.main), ".pdf")
    {
      ghost var init := fs.Snapshot();
      used := [];
      var stop := stopEvent.IsSet();
      if stop {
        return;
      }
      var listing := ListDir(fs.main);
      var leftovers := Select(listing, ".pdf");
      SelectionOfListing(listing, fs.main, ".pdf");
      if leftovers == [] {
        return;
      }
      var i := 0;
      while i < |leftovers|
        invariant 0 <= i <= |leftovers| && used == leftovers[..i]
        invariant !old(stopEvent.raised)
        invariant fs.Snapshot() == Cleanup.CleanupLoop(init, leftovers[..i], fails)
      {
        stop := stopEvent.IsSet();
        if stop {
          break;
        }
        var f := leftovers[i];
        PrefixStep(leftovers, i);
        Cleanup.CleanupOne(fs, f, fails);
        i := i + 1;
        used := leftovers[..i];
      }
      SelectionPrefix(leftovers, init.main, ".pdf", i);
      assert leftovers[..|leftovers|] == leftovers;
    }

    /**
     * One call of run_full_pipeline past the copy: the stage method for
     * stage, the n-th of the order, after n complete stages.  Only what the
     * run so far amounts to is kept: the listings of this stage are filled
     * in, and the run extends by one stage, complete unless the flag is set.
     */
    method Perform(stage: Stage, n: nat, st: Stamp, fails: Failures, ghost f0: Folders, ghost input: Inputs, ghost ls: Listings)
      returns (ghost next: Listings)
      requires input.stamp == st && input.fails == fails && input.extractor == extractor && ValidStamp(st)
      requires 0 < n < |StageOrder| && StageOrder[n] == stage
      requires Fits(f0, input, ls, n, true) && fs.Snapshot() == RunStages(f0, input, ls, n)
      modifies fs, stopEvent
      ensures old(stopEvent.raised) ==> stopEvent.raised
      ensures Fits(f0, input, next, n + 1, !stopEvent.raised) && fs.Snapshot() == RunStages(f0, input, next, n + 1)
      ensures AgreeUpTo(ls, next, n)
    {
      ghost var before := fs.Snapshot();
      match stage {
        case ExtractTexts =>
          var main;
          ghost var cut;
          main, cut := ExtractTexts(fails.extract);
          next := ls.(main := main, cut := cut);
        case DeduplicateTexts =>
          var texts, removed := DeduplicateTextFiles(fails.dedup);
          next := ls.(texts := texts);
        case CompareWithRepository =>
          var repository, compared, exception, uniqueCount, duplicateCount := CrossCompareWithRepository(fails.compare);
          next := ls.(repository := repository, compared := compared, exception := exception);
        case UpdateRepository =>
          var renamed, moved := UpdateRepository(st, fails.update);
          next := ls.(renamed := renamed);
        case CleanupMainFolder =>
          var leftovers := CleanupMainPdfFolder(fails.cleanup);
          next := ls.(leftovers := leftovers);
      }
      Pipeline.Step(f0, input, ls, next, n, stage, before, fs.Snapshot(), !stopEvent.raised);
    }

    /** The copy that opens run_full_pipeline followed by the stop_event check after it. */
    method CopyThenCheck(files: seq<Intake.SourceFile>, unreadable: set<string>, st: Stamp, fails: Failures)
      returns (stop: bool, ghost input: Inputs, ghost ls: Listings)
      requires ValidStamp(st)
      modifies fs, stopEvent
      ensures input == Inputs(input.source, unreadable, extractor, st, fails)
      ensures |input.source| <= |files| && input.source == files[..|input.source|]
      ensures old(stopEvent.raised) ==> stopEvent.raised
      ensures stop == stopEvent.raised
      ensures Fits(old(fs.Snapshot()), input, ls, 1, !stop) && fs.Snapshot() == RunStages(old(fs.Snapshot()), input, ls, 1)
      ensures !stop ==> input.source == files
      ensures old(stopEvent.raised) ==> fs.Snapshot() == old(fs.Snapshot())
    {
      ghost var f0 := fs.Snapshot();
      var used, pdfCount, otherCount := CopyPdfsToMainFolder(files, unreadable);
      input := Inputs(used, unreadable, extractor, st, fails);
      ls := Listings([], false, [], [], [], [], [], []);
      ghost var complete := !stopEvent.raised;
      ExtendRun(f0, input, ls, 0, f0, fs.Snapshot(), complete);
      stop := stopEvent.IsSet();
      if stop {
        CompleteOrStopped(f0, input, ls, 1, complete);
      }
    }

    /**
     * One stage past the copy followed by the stop_event check that comes
     * after it in run_full_pipeline; stop is what the check saw.
     */
    method PerformThenCheck(stage: Stage, n: nat, st: Stamp, fails: Failures, ghost f0: Folders, ghost input: Inputs, ghost ls: Listings)
      returns (stop: bool, ghost next: Listings)
      requires input.stamp == st && input.fails == fails && input.extractor == extractor && ValidStamp(st)
      requires 0 < n < |StageOrder| - 1 && StageOrder[n] == stage
      requires Fits(f0, input, ls, n, true) && fs.Snapshot() == RunStages(f0, input, ls, n)
      modifies fs, stopEvent
      ensures old(stopEvent.raised) ==> stopEvent.raised
      ensures stop == stopEvent.raised
      ensures Fits(f0, input, next, n + 1, !stop) && fs.Snapshot() == RunStages(f0, input, next, n + 1)
    {
      next := Perform(stage, n, st, fails, f0, input, ls);
      ghost var complete := !stopEvent.raised;
      stop := stopEvent.IsSet();
      if stop {
        CompleteOrStopped(f0, input, next, n + 1, complete);
      } else {
        assert complete;
      }
    }

    /**
     * run_full_pipeline: the stages in order, returning after the first one
     * that ends with the flag set.  The folders end as the first done
     * stages of the specification over the listings actually used, all but
     * the last complete; with the flag never set, that is the whole run
     * over all the source files.
     */
    method RunFullPipeline(files: seq<Intake.SourceFile>, unreadable: set<string>, st: Stamp, fails: Failures)
      returns (done: nat, ghost inUsed: Inputs, ghost lsUsed: Listings)
      requires ValidStamp(st)
      modifies fs, stopEvent
      ensures done <= |StageOrder|
      ensures inUsed == Inputs(inUsed.source, unreadable, extractor, st, fails)
      ensures |inUsed.source| <= |files| && inUsed.source == files[..|inUsed.source|]
      ensures Fits(old(fs.Snapshot()), inUsed, lsUsed, done, !stopEvent.raised)
      ensures fs.Snapshot() == RunStages(old(fs.Snapshot()), inUsed, lsUsed, done)
      ensures !stopEvent.raised ==> done == |StageOrder| && inUsed.source == files
      ensures old(stopEvent.raised) ==> fs.Snapshot() == old(fs.Snapshot())
    {
      ghost var f0 := fs.Snapshot();
      var stop;
      stop, inUsed, lsUsed := CopyThenCheck(files, unreadable, st, fails);
      done := 1;
      if stop {
        return;
      }
      assert !old(stopEvent.raised) && inUsed.source == files;
      done, lsUsed := RunFrom(1, st, fails, f0, inUsed, lsUsed);
    }

    /**
     * run_full_pipeline from its n-th stage on, after n complete stages:
     * stage n, then, unless it was the last, the stop_event check after it
     * and the stages after that.
     */
    method RunFrom(n: nat, st: Stamp, fails: Failures, ghost f0: Folders, ghost input: Inputs, ghost ls: Listings)
      returns (done: nat, ghost lsUsed: Listings)
      requires input.stamp == st && input.fails == fails && input.extractor == extractor && ValidStamp(st)
      requires 0 < n < |StageOrder|
      requires Fits(f0, input, ls, n, true) && fs.Snapshot() == RunStages(f0, input, ls, n)
      modifies fs, stopEvent
      ensures n < done <= |StageOrder|
      ensures Fits(f0, input, lsUsed, done, !stopEvent.raised) && fs.Snapshot() == RunStages(f0, input, lsUsed, done)
      ensures !stopEvent.raised ==> done == |StageOrder|
      decreases |StageOrder| - n
    {
      if n == |StageOrder| - 1 {
        lsUsed := Perform(StageOrder[n], n, st, fails, f0, input, ls);
        done := n + 1;
      } else {
        var stop;
        stop, lsUsed := PerformThenCheck(StageOrder[n], n, st, fails, f0, input, ls);
        done := n + 1;
        if !stop {
          done, lsUsed := RunFrom(n + 1, st, fails, f0, input, lsUsed);
        }
      }
    }
  }

  /** A run whose last stage either completed or stopped fits as a stopped run. */
  lemma CompleteOrStopped(fs: Folders, input: Inputs, ls: Listings, n: nat, complete: bool)
    requires RepoNaming.ValidStamp(input.stamp) && n <= |StageOrder|
    requires Fits(fs, input, ls, n, complete)
    ensures Fits(fs, input, ls, n, false)
  {
    if complete {
      CompleteIsPartial(fs, input, ls, n);
    }
  }
}
