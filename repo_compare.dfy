/**
 * cross_compare_with_repository, in three loops.  First the fingerprints
 * of the repository's readable .txt files are collected into repo_hashes.
 * Then, with that set fixed, each .txt file of the extracted-text folder is
 * classified: a known fingerprint makes it a repository duplicate (its PDF,
 * if still in the main folder, goes to Duplicates and its text is deleted);
 * otherwise its PDF, if present, goes to Unique and its text stays.  Last,
 * every Exception file whose name ends in ".pdf" is copied into Unique.
 */
module RepoCompare {
  import opened Text
  import opened Fingerprint
  import opened FileSystem

  // ---------------------------------------------------------------- repo_hashes

  /** Repository file f contributes a fingerprint: a .txt name whose read succeeds. */
  predicate RepoReadable(repo: Dir, fails: set<FileId>, f: string) {
    IsTxtName(f) && f in repo && FileId(Repository, f) !in fails
  }

  /** One iteration of the first loop. */
  function AddRepoHash(hashes: set<string>, repo: Dir, f: string, fails: set<FileId>): set<string> {
    if RepoReadable(repo, fails, f) then hashes + {ContentHash(repo[f])} else hashes
  }

  /** repo_hashes after the first loop has visited listing. */
  function RepoHashes(repo: Dir, listing: seq<string>, fails: set<FileId>): set<string>
    decreases |listing|
  {
    if listing == [] then {}
    else AddRepoHash(RepoHashes(repo, listing[..|listing| - 1], fails), repo, listing[|listing| - 1], fails)
  }

  /** The fingerprints of all readable repository text files, independent of any order. */
  function RepoFingerprints(repo: Dir, fails: set<FileId>): set<string> {
    set f | f in repo && RepoReadable(repo, fails, f) :: ContentHash(repo[f])
  }

  lemma {:induction false} RepoHashesOfPrefix(repo: Dir, listing: seq<string>, fails: set<FileId>)
    ensures RepoHashes(repo, listing, fails) ==
      set f | f in listing && RepoReadable(repo, fails, f) :: ContentHash(repo[f])
  {
    if listing != [] {
      var init := listing[..|listing| - 1];
      var g := listing[|listing| - 1];
      RepoHashesOfPrefix(repo, init, fails);
      assert listing == init + [g];
      forall h ensures h in RepoHashes(repo, listing, fails) <==>
        h in set f | f in listing && RepoReadable(repo, fails, f) :: ContentHash(repo[f])
      {
        if h in set f | f in listing && RepoReadable(repo, fails, f) :: ContentHash(repo[f]) {
          var f :| f in listing && RepoReadable(repo, fails, f) && ContentHash(repo[f]) == h;
          if f != g {
            assert f in init;
          }
        }
      }
    }
  }

  /**
   * Whatever order os.listdir gives, the first loop collects exactly the
   * fingerprints of the readable repository text files.
   */
  lemma RepoHashesComplete(repo: Dir, listing: seq<string>, fails: set<FileId>)
    requires IsListingOf(listing, repo)
    ensures RepoHashes(repo, listing, fails) == RepoFingerprints(repo, fails)
  {
    RepoHashesOfPrefix(repo, listing, fails);
  }

  // ---------------------------------------------------------------- classification

  /** The folders with count_unique and count_duplicates during the second loop. */
  datatype CompareState = CompareState(folders: Folders, uniqueCount: nat, duplicateCount: nat)

  function Start(fs: Folders): CompareState {
    CompareState(fs, 0, 0)
  }

  /**
   * One iteration for text file f against the fixed set hashes.  An
   * unreadable text is skipped.  A member is counted as a duplicate even when
   * its PDF is absent; a non-member is counted as unique only when its PDF
   * was there to move.
   */
  function CompareStep(s: CompareState, hashes: set<string>, f: string, fails: set<FileId>): CompareState
  {
    if !Readable(s.folders, fails, f) then s
    else
      var pdf := PdfName(f);
      var fs := s.folders;
      if TextHash(fs, f) in hashes then
        var fs' := if pdf in fs.main
          then fs.(main := fs.main - {pdf}, duplicates := fs.duplicates[pdf := fs.main[pdf]])
          else fs;
        s.(folders := fs'.(extracted := fs.extracted - {f}), duplicateCount := s.duplicateCount + 1)
      else if pdf in fs.main then
        s.(folders := fs.(main := fs.main - {pdf}, unique := fs.unique[pdf := fs.main[pdf]]),
           uniqueCount := s.uniqueCount + 1)
      else s
  }

  /** One iteration of the second loop carried out on the file store, as CompareStep describes it. */
  method ClassifyOne(fs: FileStore, f: string, hashes: set<string>, fails: set<FileId>, uniqueCount: nat, duplicateCount: nat)
    returns (uniqueCount': nat, duplicateCount': nat)
    modifies fs
    ensures CompareState(fs.Snapshot(), uniqueCount', duplicateCount')
      == CompareStep(CompareState(old(fs.Snapshot()), uniqueCount, duplicateCount), hashes, f, fails)
  {
    uniqueCount', duplicateCount' := uniqueCount, duplicateCount;
    if f in fs.extracted && FileId(Extracted, f) !in fails {
      var h := ContentHash(fs.extracted[f]);
      var pdf := PdfName(f);
      if h in hashes {
        if pdf in fs.main {
          fs.duplicates := fs.duplicates[pdf := fs.main[pdf]];
          fs.main := fs.main - {pdf};
        }
        fs.extracted := fs.extracted - {f};
        duplicateCount' := duplicateCount + 1;
      } else if pdf in fs.main {
        fs.unique := fs.unique[pdf := fs.main[pdf]];
        fs.main := fs.main - {pdf};
        uniqueCount' := uniqueCount + 1;
      }
    }
  }

  /** The second loop over the listed .txt files. */
  function Compare(s0: CompareState, files: seq<string>, hashes: set<string>, fails: set<FileId>): CompareState
    decreases |files|
  {
    if files == [] then s0
    else CompareStep(Compare(s0, files[..|files| - 1], hashes, fails), hashes, files[|files| - 1], fails)
  }

  /** No listed text file other than files[i] has PDF name pdf. */
  predicate ClaimsAlone(files: seq<string>, i: nat, pdf: string)
    requires i < |files|
  {
    forall j :: 0 <= j < |files| && j != i ==> PdfName(files[j]) != pdf
  }

  /** No listed text file at all has PDF name n. */
  predicate Unclaimed(files: seq<string>, n: string) {
    forall f :: f in files ==> PdfName(f) != n
  }

  /**
   * What the second loop changes: Exception and the repository never; a
   * text is only ever deleted, and only if it was listed and readable.
   */
  lemma {:induction false} CompareFrame(fs: Folders, files: seq<string>, hashes: set<string>, fails: set<FileId>)
    ensures var r := Compare(Start(fs), files, hashes, fails).folders;
      && r.exception == fs.exception && r.repository == fs.repository
      && (forall n :: n in r.extracted ==> n in fs.extracted && r.extracted[n] == fs.extracted[n])
      && (forall n :: n in fs.extracted && n !in r.extracted ==> n in files && Readable(fs, fails, n))
  {
    if files != [] {
      CompareFrame(fs, files[..|files| - 1], hashes, fails);
    }
  }

  /** Entry n of main, Unique and Duplicates is the same in a and b. */
  predicate SamePdfEntry(a: Folders, b: Folders, n: string) {
    && (n in a.main <==> n in b.main) && (n in a.main ==> a.main[n] == b.main[n])
    && (n in a.unique <==> n in b.unique) && (n in a.unique ==> a.unique[n] == b.unique[n])
    && (n in a.duplicates <==> n in b.duplicates) && (n in a.duplicates ==> a.duplicates[n] == b.duplicates[n])
  }

  /**
   * One iteration touches at most the entry PdfName(g), and that one only
   * while it is in main: it leaves main for Duplicates or Unique with its content.
   */
  lemma StepPdfEntry(p: CompareState, hashes: set<string>, g: string, fails: set<FileId>, n: string)
    ensures var r := CompareStep(p, hashes, g, fails).folders;
      && (n != PdfName(g) || n !in p.folders.main ==> SamePdfEntry(r, p.folders, n))
      && (n in r.main ==> n in p.folders.main && r.main[n] == p.folders.main[n])
      && (n in p.folders.main && n !in r.main ==>
            (n in r.duplicates && r.duplicates[n] == p.folders.main[n]) || (n in r.unique && r.unique[n] == p.folders.main[n]))
  {
  }

  /** A PDF only leaves main, and only for Duplicates or Unique, keeping its content. */
  lemma {:induction false} CompareMovesPdfs(fs: Folders, files: seq<string>, hashes: set<string>, fails: set<FileId>)
    ensures var r := Compare(Start(fs), files, hashes, fails).folders;
      && (forall n :: n in r.main ==> n in fs.main && r.main[n] == fs.main[n])
      && (forall n :: n in fs.main && n !in r.main ==>
            (n in r.duplicates && r.duplicates[n] == fs.main[n]) || (n in r.unique && r.unique[n] == fs.main[n]))
  {
    if files != [] {
      var init := files[..|files| - 1];
      var g := files[|files| - 1];
      CompareMovesPdfs(fs, init, hashes, fails);
      var p := Compare(Start(fs), init, hashes, fails);
      var r := Compare(Start(fs), files, hashes, fails).folders;
      assert r == CompareStep(p, hashes, g, fails).folders;
      forall n | n in r.main ensures n in fs.main && r.main[n] == fs.main[n] {
        StepPdfEntry(p, hashes, g, fails, n);
      }
      forall n | n in fs.main && n !in r.main
        ensures (n in r.duplicates && r.duplicates[n] == fs.main[n]) || (n in r.unique && r.unique[n] == fs.main[n])
      {
        StepPdfEntry(p, hashes, g, fails, n);
      }
    }
  }

  /** Names that no listed text file points to are untouched in main, Unique and Duplicates. */
  lemma {:induction false} CompareUnclaimed(fs: Folders, files: seq<string>, hashes: set<string>, fails: set<FileId>, n: string)
    requires Unclaimed(files, n)
    ensures SamePdfEntry(Compare(Start(fs), files, hashes, fails).folders, fs, n)
  {
    if files != [] {
      var init := files[..|files| - 1];
      assert Unclaimed(init, n) by {
        forall f | f in init ensures PdfName(f) != n {
          assert f in files;
        }
      }
      CompareUnclaimed(fs, init, hashes, fails, n);
      StepPdfEntry(Compare(Start(fs), init, hashes, fails), hashes, files[|files| - 1], fails, n);
    }
  }

  /** Texts not yet visited keep their entry, so they are readable exactly when they were at the start. */
  lemma UnvisitedUnchanged(fs: Folders, files: seq<string>, hashes: set<string>, fails: set<FileId>, n: string)
    requires n !in files
    ensures var r := Compare(Start(fs), files, hashes, fails).folders;
      && (n in r.extracted <==> n in fs.extracted)
      && (n in r.extracted ==> r.extracted[n] == fs.extracted[n])
      && (Readable(r, fails, n) <==> Readable(fs, fails, n))
  {
    CompareFrame(fs, files, hashes, fails);
  }

  /**
   * A listed readable text survives the second loop exactly when its
   * fingerprint is not in the repository set, with its content unchanged.
   * (Stated for every prefix that contains the file.)
   */
  lemma {:induction false} CompareTextUpTo(fs: Folders, files: seq<string>, hashes: set<string>, fails: set<FileId>, i: nat, n: nat)
    requires NoDup(files) && i < n <= |files| && Readable(fs, fails, files[i])
    ensures var f := files[i];
      var r := Compare(Start(fs), files[..n], hashes, fails).folders;
      f in r.extracted <==> TextHash(fs, f) !in hashes
  {
    var f := files[i];
    if n == i + 1 {
      var init := files[..i];
      assert files[..n][..i] == init;
      assert f !in init;
      UnvisitedUnchanged(fs, init, hashes, fails, f);
    } else {
      CompareTextUpTo(fs, files, hashes, fails, i, n - 1);
      assert files[..n][..n - 1] == files[..n - 1];
      assert files[n - 1] != f by {
        assert files[i] == f;
      }
    }
  }

  lemma CompareKeepsText(fs: Folders, files: seq<string>, hashes: set<string>, fails: set<FileId>, i: nat)
    requires NoDup(files) && i < |files| && Readable(fs, fails, files[i])
    ensures var r := Compare(Start(fs), files, hashes, fails).folders;
      files[i] in r.extracted <==> TextHash(fs, files[i]) !in hashes
  {
    CompareTextUpTo(fs, files, hashes, fails, i, |files|);
    assert files[..|files|] == files;
  }

  /**
   * Where the PDF pdf of a text ends up: it has left main and, if it was in
   * main at the start (orig), it sits in Duplicates when the text's
   * fingerprint is a member and in Unique otherwise, with its content.
   */
  ghost predicate PdfRouted(r: Folders, pdf: string, orig: Folders, member: bool) {
    && pdf !in r.main
    && (pdf in orig.main && member ==> pdf in r.duplicates && r.duplicates[pdf] == orig.main[pdf])
    && (pdf in orig.main && !member ==> pdf in r.unique && r.unique[pdf] == orig.main[pdf])
  }

  /** The step for a readable text f routes its PDF. */
  lemma StepRoutesPdf(p: CompareState, hashes: set<string>, f: string, fails: set<FileId>, orig: Folders)
    requires Readable(p.folders, fails, f)
    requires PdfName(f) in p.folders.main <==> PdfName(f) in orig.main
    requires PdfName(f) in orig.main ==> p.folders.main[PdfName(f)] == orig.main[PdfName(f)]
    ensures PdfRouted(CompareStep(p, hashes, f, fails).folders, PdfName(f), orig, TextHash(p.folders, f) in hashes)
  {
  }

  /** A step for a text with another PDF name leaves a routed PDF where it is. */
  lemma StepKeepsPdfRouted(p: CompareState, hashes: set<string>, g: string, fails: set<FileId>,
                           pdf: string, orig: Folders, member: bool)
    requires PdfRouted(p.folders, pdf, orig, member) && PdfName(g) != pdf
    ensures PdfRouted(CompareStep(p, hashes, g, fails).folders, pdf, orig, member)
  {
    StepPdfEntry(p, hashes, g, fails, pdf);
  }

  /** Visiting files[m..n], none of which has PDF name pdf, keeps pdf routed. */
  lemma {:induction false} ComparePdfStays(fs: Folders, files: seq<string>, hashes: set<string>, fails: set<FileId>,
                                           m: nat, n: nat, pdf: string, member: bool)
    requires m <= n <= |files|
    requires forall j :: m <= j < n ==> PdfName(files[j]) != pdf
    requires PdfRouted(Compare(Start(fs), files[..m], hashes, fails).folders, pdf, fs, member)
    ensures PdfRouted(Compare(Start(fs), files[..n], hashes, fails).folders, pdf, fs, member)
  {
    if m < n {
      ComparePdfStays(fs, files, hashes, fails, m, n - 1, pdf, member);
      ComparePdfKept(fs, files, hashes, fails, n, pdf, member);
    }
  }

  /** Visiting files[n - 1], whose PDF name is not pdf, keeps pdf routed. */
  lemma ComparePdfKept(fs: Folders, files: seq<string>, hashes: set<string>, fails: set<FileId>, n: nat,
                       pdf: string, member: bool)
    requires 0 < n <= |files| && PdfName(files[n - 1]) != pdf
    requires PdfRouted(Compare(Start(fs), files[..n - 1], hashes, fails).folders, pdf, fs, member)
    ensures PdfRouted(Compare(Start(fs), files[..n], hashes, fails).folders, pdf, fs, member)
  {
    assert files[..n][..n - 1] == files[..n - 1];
    var p := Compare(Start(fs), files[..n - 1], hashes, fails);
    StepKeepsPdfRouted(p, hashes, files[n - 1], fails, pdf, fs, member);
  }

  /** The PDF of files[i] is routed once the loop has visited files[i]. */
  lemma ComparePdfFirst(fs: Folders, files: seq<string>, hashes: set<string>, fails: set<FileId>, i: nat)
    requires i < |files|
    requires Readable(fs, fails, files[i]) && ClaimsAlone(files, i, PdfName(files[i]))
    ensures PdfRouted(Compare(Start(fs), files[..i + 1], hashes, fails).folders, PdfName(files[i]), fs,
                      TextHash(fs, files[i]) in hashes)
  {
    var f := files[i];
    var pdf := PdfName(f);
    var init := files[..i];
    assert files[..i + 1][..i] == init;
    assert f !in init by {
      forall j | 0 <= j < i ensures files[j] != f {
        assert PdfName(files[j]) != pdf;
      }
    }
    UnvisitedUnchanged(fs, init, hashes, fails, f);
    assert Unclaimed(init, pdf) by {
      forall g | g in init ensures PdfName(g) != pdf {
        var j :| 0 <= j < i && files[j] == g;
      }
    }
    CompareUnclaimed(fs, init, hashes, fails, pdf);
    var p := Compare(Start(fs), init, hashes, fails);
    assert Compare(Start(fs), files[..i + 1], hashes, fails) == CompareStep(p, hashes, f, fails);
    StepRoutesPdf(p, hashes, f, fails, fs);
  }

  /**
   * Routing of one listed readable text file whose PDF name no other listed
   * text file shares: its text survives exactly when its fingerprint is not
   * in the repository set; its PDF has left main, for Duplicates if the
   * text is a member and for Unique otherwise.
   */
  lemma CompareRouting(fs: Folders, files: seq<string>, hashes: set<string>, fails: set<FileId>, i: nat)
    requires NoDup(files) && i < |files|
    requires Readable(fs, fails, files[i]) && ClaimsAlone(files, i, PdfName(files[i]))
    ensures var f := files[i];
      var pdf := PdfName(f);
      var r := Compare(Start(fs), files, hashes, fails).folders;
      && (f in r.extracted <==> TextHash(fs, f) !in hashes)
      && pdf !in r.main
      && (pdf in fs.main && TextHash(fs, f) in hashes ==> pdf in r.duplicates && r.duplicates[pdf] == fs.main[pdf])
      && (pdf in fs.main && TextHash(fs, f) !in hashes ==> pdf in r.unique && r.unique[pdf] == fs.main[pdf])
  {
    CompareKeepsText(fs, files, hashes, fails, i);
    ComparePdfFirst(fs, files, hashes, fails, i);
    ComparePdfStays(fs, files, hashes, fails, i + 1, |files|, PdfName(files[i]), TextHash(fs, files[i]) in hashes);
    assert files[..|files|] == files;
  }

  /** How many listed readable text files have a fingerprint in hashes. */
  function MemberCount(fs: Folders, fails: set<FileId>, files: seq<string>, hashes: set<string>): (c: nat)
    ensures c <= |files|
    decreases |files|
  {
    if files == [] then 0
    else
      var g := files[|files| - 1];
      MemberCount(fs, fails, files[..|files| - 1], hashes)
        + (if Readable(fs, fails, g) && TextHash(fs, g) in hashes then 1 else 0)
  }

  /**
   * count_duplicates is the number of readable listed texts whose
   * fingerprint is in the repository set (whether or not their PDF was
   * there), and at most one of the two counters moves per file.
   */
  lemma {:induction false} CompareCounts(fs: Folders, files: seq<string>, hashes: set<string>, fails: set<FileId>)
    requires NoDup(files)
    ensures var r := Compare(Start(fs), files, hashes, fails);
      && r.duplicateCount == MemberCount(fs, fails, files, hashes)
      && r.uniqueCount + r.duplicateCount <= |files|
  {
    if files != [] {
      var init := files[..|files| - 1];
      var g := files[|files| - 1];
      assert NoDup(init);
      assert g !in init;
      CompareCounts(fs, init, hashes, fails);
      UnvisitedUnchanged(fs, init, hashes, fails, g);
    }
  }

  /**
   * How many listed readable text files have a fingerprint outside hashes
   * and a PDF name that is in main at the start.
   */
  function NewCount(fs: Folders, fails: set<FileId>, files: seq<string>, hashes: set<string>): (c: nat)
    ensures c <= |files|
    decreases |files|
  {
    if files == [] then 0
    else
      var g := files[|files| - 1];
      NewCount(fs, fails, files[..|files| - 1], hashes)
        + (if Readable(fs, fails, g) && TextHash(fs, g) !in hashes && PdfName(g) in fs.main then 1 else 0)
  }

  /** No two listed text files point to the same PDF name. */
  predicate DistinctPdfNames(files: seq<string>) {
    forall i, j :: 0 <= i < j < |files| ==> PdfName(files[i]) != PdfName(files[j])
  }

  /**
   * When no two listed texts share a PDF name, count_unique is the number of
   * readable listed texts with a new fingerprint whose PDF was in main when
   * the loop began.
   */
  lemma {:induction false} CompareUniqueCount(fs: Folders, files: seq<string>, hashes: set<string>, fails: set<FileId>)
    requires DistinctPdfNames(files)
    ensures Compare(Start(fs), files, hashes, fails).uniqueCount == NewCount(fs, fails, files, hashes)
  {
    if files != [] {
      var init := files[..|files| - 1];
      var g := files[|files| - 1];
      assert DistinctPdfNames(init);
      assert Unclaimed(init, PdfName(g)) by {
        forall f | f in init ensures PdfName(f) != PdfName(g) {
          var j :| 0 <= j < |init| && init[j] == f;
          assert files[j] == f;
        }
      }
      CompareUniqueCount(fs, init, hashes, fails);
      UnvisitedUnchanged(fs, init, hashes, fails, g);
      CompareUnclaimed(fs, init, hashes, fails, PdfName(g));
    }
  }

  // ---------------------------------------------------------------- exception copy

  /** shutil.copy2 of Exception file f into Unique succeeds for a ".pdf" name. */
  predicate Copyable(fs: Folders, fails: set<FileId>, f: string) {
    IsPdfName(f) && f in fs.exception && FileId(Exception, f) !in fails
  }

  function CopyStep(fs: Folders, f: string, fails: set<FileId>): Folders {
    if Copyable(fs, fails, f) then fs.(unique := fs.unique[f := fs.exception[f]]) else fs
  }

  /** One iteration of the third loop carried out on the file store. */
  method CopyOne(fs: FileStore, f: string, fails: set<FileId>)
    modifies fs
    ensures fs.Snapshot() == CopyStep(old(fs.Snapshot()), f, fails)
  {
    if IsPdfName(f) && f in fs.exception && FileId(Exception, f) !in fails {
      fs.unique := fs.unique[f := fs.exception[f]];
    }
  }

  /** The third loop over the Exception listing. */
  function CopyExceptions(fs: Folders, names: seq<string>, fails: set<FileId>): Folders
    decreases |names|
  {
    if names == [] then fs
    else CopyStep(CopyExceptions(fs, names[..|names| - 1], fails), names[|names| - 1], fails)
  }

  /**
   * The copy loop changes only Unique: it then holds every copyable listed
   * Exception PDF with the Exception content, and otherwise what it held.
   * Exception itself is unchanged (copy, not move).
   */
  lemma {:induction false} CopyExceptionsExact(fs: Folders, names: seq<string>, fails: set<FileId>)
    ensures var r := CopyExceptions(fs, names, fails);
      && r.(unique := fs.unique) == fs
      && (forall n :: n in r.unique <==> n in fs.unique || (n in names && Copyable(fs, fails, n)))
      && (forall n :: n in names && Copyable(fs, fails, n) ==> r.unique[n] == fs.exception[n])
      && (forall n :: n in fs.unique && !(n in names && Copyable(fs, fails, n)) ==> r.unique[n] == fs.unique[n])
  {
    if names != [] {
      var init := names[..|names| - 1];
      CopyExceptionsExact(fs, init, fails);
      assert names == init + [names[|names| - 1]];
    }
  }

  // ---------------------------------------------------------------- the stage

  /**
   * The whole stage: repo_hashes from the repository listing, then the
   * classification of extracted_files (the .txt names of the extracted-text
   * listing), then the copy over the Exception listing.
   */
  function CrossCompare(fs: Folders, repoListing: seq<string>, texts: seq<string>,
                        exceptionListing: seq<string>, fails: set<FileId>): CompareState
  {
    var hashes := RepoHashes(fs.repository, repoListing, fails);
    var s := Compare(Start(fs), texts, hashes, fails);
    s.(folders := CopyExceptions(s.folders, exceptionListing, fails))
  }

  /**
   * End to end: the repository and Exception are not modified, and a
   * readable batch text (whose PDF name no other batch text shares) is kept
   * exactly when no readable repository text has its fingerprint, with its
   * PDF routed to Duplicates or Unique accordingly.
   */
  lemma CrossCompareRouting(fs: Folders, repoListing: seq<string>, texts: seq<string>,
                            exceptionListing: seq<string>, fails: set<FileId>, f: string)
    requires IsListingOf(repoListing, fs.repository) && IsSelectionOf(texts, fs.extracted, ".txt")
    requires IsListingOf(exceptionListing, fs.exception)
    requires IsTxtName(f) && Readable(fs, fails, f)
    requires forall g :: g in fs.extracted && IsTxtName(g) && g != f ==> PdfName(g) != PdfName(f)
    ensures var r := CrossCompare(fs, repoListing, texts, exceptionListing, fails).folders;
      var known := RepoFingerprints(fs.repository, fails);
      var pdf := PdfName(f);
      && r.repository == fs.repository && r.exception == fs.exception
      && (f in r.extracted <==> TextHash(fs, f) !in known)
      && pdf !in r.main
      && (pdf in fs.main && TextHash(fs, f) in known ==> pdf in r.duplicates && r.duplicates[pdf] == fs.main[pdf])
      && (pdf in fs.main && TextHash(fs, f) !in known && pdf !in fs.exception ==>
            pdf in r.unique && r.unique[pdf] == fs.main[pdf])
  {
    var hashes := RepoHashes(fs.repository, repoListing, fails);
    RepoHashesComplete(fs.repository, repoListing, fails);
    var files := texts;
    assert f in files;
    var i :| 0 <= i < |files| && files[i] == f;
    assert ClaimsAlone(files, i, PdfName(f)) by {
      forall j | 0 <= j < |files| && j != i ensures PdfName(files[j]) != PdfName(f) {
        assert files[j] in files;
      }
    }
    CompareRouting(fs, files, hashes, fails, i);
    CompareFrame(fs, files, hashes, fails);
    var s := Compare(Start(fs), files, hashes, fails);
    CopyExceptionsExact(s.folders, exceptionListing, fails);
  }
}
