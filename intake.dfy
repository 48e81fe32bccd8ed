/**
 * copy_pdfs_to_main_folder / process_file: every file found in the source
 * folder is copied into the main PDF folder when its name ends in ".pdf"
 * (any case) and into Exception otherwise, under its bare name.  The whole
 * walk sits in one try block, so the first failing copy ends the walk.
 */
module Intake {
  import opened Text
  import opened FileSystem

  /** A file the walk of the source folder visits: where it is, its bare name, its bytes. */
  datatype SourceFile = SourceFile(path: string, name: string, content: string)

  /** The walk so far: the folders, pdf_count, other_count, and whether an exception ended the walk. */
  datatype IntakeState = IntakeState(folders: Folders, pdfCount: nat, otherCount: nat, aborted: bool)

  function Start(fs: Folders): IntakeState {
    IntakeState(fs, 0, 0, false)
  }

  /** process_file for one file; a copy that fails (unreadable source path) ends the walk. */
  function ProcessFile(s: IntakeState, file: SourceFile, unreadable: set<string>): (r: IntakeState)
    ensures s.aborted ==> r == s
    ensures r.aborted <==> s.aborted || file.path in unreadable
    ensures r.aborted ==> r.folders == s.folders && r.pdfCount == s.pdfCount && r.otherCount == s.otherCount
    ensures !r.aborted ==> r.pdfCount + r.otherCount == s.pdfCount + s.otherCount + 1
  {
    if s.aborted then s
    else if file.path in unreadable then s.(aborted := true)
    else if IsPdfName(file.name) then
      s.(folders := s.folders.(main := s.folders.main[file.name := file.content]), pdfCount := s.pdfCount + 1)
    else
      s.(folders := s.folders.(exception := s.folders.exception[file.name := file.content]), otherCount := s.otherCount + 1)
  }

  /** One successful copy carried out on the file store, as ProcessFile describes it. */
  method CopyOne(fs: FileStore, file: SourceFile, unreadable: set<string>, pdfCount: nat, otherCount: nat)
    returns (pdfCount': nat, otherCount': nat)
    requires file.path !in unreadable
    modifies fs
    ensures IntakeState(fs.Snapshot(), pdfCount', otherCount', false)
      == ProcessFile(IntakeState(old(fs.Snapshot()), pdfCount, otherCount, false), file, unreadable)
  {
    pdfCount', otherCount' := pdfCount, otherCount;
    if IsPdfName(file.name) {
      fs.main := fs.main[file.name := file.content];
      pdfCount' := pdfCount + 1;
    } else {
      fs.exception := fs.exception[file.name := file.content];
      otherCount' := otherCount + 1;
    }
  }

  /** The walk over the visited files, in visiting order. */
  function Walk(s0: IntakeState, files: seq<SourceFile>, unreadable: set<string>): IntakeState
    decreases |files|
  {
    if files == [] then s0
    else ProcessFile(Walk(s0, files[..|files| - 1], unreadable), files[|files| - 1], unreadable)
  }

  /** How many of the files have a .pdf name. */
  function CountPdf(files: seq<SourceFile>): (n: nat)
    ensures n <= |files|
  {
    if files == [] then 0
    else CountPdf(files[..|files| - 1]) + (if IsPdfName(files[|files| - 1].name) then 1 else 0)
  }

  /** files[i] is the last visited file with its name: its copy is the one that stays. */
  predicate LastOfName(files: seq<SourceFile>, i: nat)
    requires i < |files|
  {
    forall j :: i < j < |files| ==> files[j].name != files[i].name
  }

  predicate NoFailure(files: seq<SourceFile>, unreadable: set<string>) {
    forall i :: 0 <= i < |files| ==> files[i].path !in unreadable
  }

  /** A name visited by the walk. */
  predicate Visited(files: seq<SourceFile>, n: string) {
    exists i :: 0 <= i < |files| && files[i].name == n
  }

  /** Whatever fails, the walk only adds or replaces entries of Main and Exception. */
  lemma {:induction false} IntakeFrame(fs: Folders, files: seq<SourceFile>, unreadable: set<string>)
    ensures var r := Walk(Start(fs), files, unreadable).folders;
      && r.(main := fs.main, exception := fs.exception) == fs
      && fs.main.Keys <= r.main.Keys && fs.exception.Keys <= r.exception.Keys
  {
    if files != [] {
      IntakeFrame(fs, files[..|files| - 1], unreadable);
      ProcessFileFrame(Walk(Start(fs), files[..|files| - 1], unreadable), files[|files| - 1], unreadable);
    }
  }

  /** One copy only adds or replaces an entry of Main or Exception. */
  lemma ProcessFileFrame(s: IntakeState, file: SourceFile, unreadable: set<string>)
    ensures var r := ProcessFile(s, file, unreadable).folders;
      && r.(main := s.folders.main, exception := s.folders.exception) == s.folders
      && s.folders.main.Keys <= r.main.Keys && s.folders.exception.Keys <= r.exception.Keys
  {
  }

  /**
   * With no failing copy the walk is not aborted and counts every file
   * exactly once: pdf_count + other_count is the number of files, pdf_count
   * the number of .pdf names.  Only Main and Exception change.
   */
  lemma {:induction false} IntakeCounts(fs: Folders, files: seq<SourceFile>, unreadable: set<string>)
    requires NoFailure(files, unreadable)
    ensures var r := Walk(Start(fs), files, unreadable);
      && !r.aborted
      && r.pdfCount + r.otherCount == |files|
      && r.pdfCount == CountPdf(files)
      && r.folders.(main := fs.main, exception := fs.exception) == fs
  {
    if files != [] {
      IntakeCounts(fs, files[..|files| - 1], unreadable);
    }
  }

  /** The names visited by files are those visited before its last file, and that file's name. */
  lemma VisitedSnoc(files: seq<SourceFile>)
    requires files != []
    ensures forall n :: Visited(files, n) <==> Visited(files[..|files| - 1], n) || files[|files| - 1].name == n
  {
    var k := |files| - 1;
    var init := files[..k];
    forall n ensures Visited(files, n) <==> Visited(init, n) || files[k].name == n {
      if Visited(init, n) {
        var i :| 0 <= i < |init| && init[i].name == n;
        assert files[i].name == n;
      }
      if Visited(files, n) && files[k].name != n {
        var i :| 0 <= i < |files| && files[i].name == n;
        assert init[i].name == n;
      }
    }
  }

  /** A successful copy of file adds its name to Main or to Exception, by its extension. */
  lemma ProcessFileRouting(s: IntakeState, file: SourceFile, unreadable: set<string>)
    requires !s.aborted && file.path !in unreadable
    ensures var r := ProcessFile(s, file, unreadable).folders;
      && (forall n :: n in r.main <==> n in s.folders.main || (IsPdfName(n) && file.name == n))
      && (forall n :: n in r.exception <==> n in s.folders.exception || (!IsPdfName(n) && file.name == n))
  {
  }

  /**
   * With no failing copy, a name is in Main afterwards exactly when it was
   * there or a visited file with a .pdf name has it, and in Exception
   * exactly when it was there or a visited file with another name has it.
   */
  lemma {:induction false} IntakeRouting(fs: Folders, files: seq<SourceFile>, unreadable: set<string>)
    requires NoFailure(files, unreadable)
    ensures var r := Walk(Start(fs), files, unreadable);
      && (forall n :: n in r.folders.main <==> n in fs.main || (IsPdfName(n) && Visited(files, n)))
      && (forall n :: n in r.folders.exception <==> n in fs.exception || (!IsPdfName(n) && Visited(files, n)))
  {
    if files != [] {
      var k := |files| - 1;
      var init := files[..k];
      IntakeRouting(fs, init, unreadable);
      IntakeCounts(fs, init, unreadable);
      ProcessFileRouting(Walk(Start(fs), init, unreadable), files[k], unreadable);
      VisitedSnoc(files);
    }
  }

  /** A successful copy stores file under its name; other names keep their entries. */
  lemma ProcessFileStores(s: IntakeState, file: SourceFile, unreadable: set<string>, n: string)
    requires !s.aborted && file.path !in unreadable
    ensures var r := ProcessFile(s, file, unreadable).folders;
      && (n == file.name && IsPdfName(n) ==> n in r.main && r.main[n] == file.content)
      && (n == file.name && !IsPdfName(n) ==> n in r.exception && r.exception[n] == file.content)
      && (n != file.name ==> (n in r.main <==> n in s.folders.main) && (n in r.main ==> r.main[n] == s.folders.main[n]))
      && (n != file.name ==> (n in r.exception <==> n in s.folders.exception)
                             && (n in r.exception ==> r.exception[n] == s.folders.exception[n]))
  {
  }

  /** With no failing copy, each name keeps the content of the last visited file with that name. */
  lemma {:induction false} IntakeLastCopyWins(fs: Folders, files: seq<SourceFile>, unreadable: set<string>, i: nat)
    requires NoFailure(files, unreadable)
    requires i < |files| && LastOfName(files, i)
    ensures var r := Walk(Start(fs), files, unreadable);
      && (IsPdfName(files[i].name) ==> files[i].name in r.folders.main && r.folders.main[files[i].name] == files[i].content)
      && (!IsPdfName(files[i].name) ==> files[i].name in r.folders.exception && r.folders.exception[files[i].name] == files[i].content)
  {
    var k := |files| - 1;
    var init := files[..k];
    IntakeCounts(fs, init, unreadable);
    ProcessFileStores(Walk(Start(fs), init, unreadable), files[k], unreadable, files[i].name);
    if i < k {
      assert LastOfName(init, i);
      assert files[i] == init[i];
      IntakeLastCopyWins(fs, init, unreadable, i);
    }
  }

  /**
   * One exception ends the walk: the result is the walk up to the failing
   * file, marked aborted; that file and every later one are not copied.
   */
  lemma {:induction false} FailureAbortsWalk(s0: IntakeState, files: seq<SourceFile>, unreadable: set<string>, i: nat)
    requires i < |files| && files[i].path in unreadable
    ensures Walk(s0, files, unreadable) == Walk(s0, files[..i], unreadable).(aborted := true)
  {
    var k := |files| - 1;
    assert files[..k + 1] == files;
    if k == i {
      assert files[..k] == files[..i];
    } else {
      assert files[..k][..i] == files[..i];
      FailureAbortsWalk(s0, files[..k], unreadable, i);
    }
  }
}
