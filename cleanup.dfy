/**
 * cleanup_main_pdf_folder: every ".pdf" name still in the main folder is
 * moved, under the same name, to Exception; a move that fails leaves that
 * file in place and the loop goes on.
 */
module Cleanup {
  import opened Text
  import opened FileSystem

  /** shutil.move of main-folder file f succeeds. */
  predicate Leftover(fs: Folders, fails: set<FileId>, f: string) {
    f in fs.main && FileId(Main, f) !in fails
  }

  /** One iteration for leftover name f. */
  function CleanupStep(fs: Folders, f: string, fails: set<FileId>): Folders {
    if Leftover(fs, fails, f) then fs.(main := fs.main - {f}, exception := fs.exception[f := fs.main[f]]) else fs
  }

  /** One iteration carried out on the file store. */
  method CleanupOne(fs: FileStore, f: string, fails: set<FileId>)
    modifies fs
    ensures fs.Snapshot() == CleanupStep(old(fs.Snapshot()), f, fails)
  {
    if f in fs.main && FileId(Main, f) !in fails {
      fs.exception := fs.exception[f := fs.main[f]];
      fs.main := fs.main - {f};
    }
  }

  /** The loop over leftover_files, the ".pdf" names of the main-folder listing. */
  function CleanupLoop(fs: Folders, files: seq<string>, fails: set<FileId>): Folders
    decreases |files|
  {
    if files == [] then fs
    else CleanupStep(CleanupLoop(fs, files[..|files| - 1], fails), files[|files| - 1], fails)
  }

  /**
   * Over distinct names, the loop moves exactly the listed files whose move
   * succeeds from main to Exception with their content, and changes
   * nothing else.
   */
  lemma {:induction false} CleanupLoopExact(fs: Folders, files: seq<string>, fails: set<FileId>)
    requires NoDup(files)
    ensures var r := CleanupLoop(fs, files, fails);
      && r.(main := fs.main, exception := fs.exception) == fs
      && (forall n :: n in r.main <==> n in fs.main && !(n in files && Leftover(fs, fails, n)))
      && (forall n :: n in r.main ==> r.main[n] == fs.main[n])
      && (forall n :: n in r.exception <==> n in fs.exception || (n in files && Leftover(fs, fails, n)))
      && (forall n :: n in files && Leftover(fs, fails, n) ==> r.exception[n] == fs.main[n])
      && (forall n :: n in fs.exception && !(n in files && Leftover(fs, fails, n)) ==> r.exception[n] == fs.exception[n])
  {
    if files != [] {
      var init := files[..|files| - 1];
      var g := files[|files| - 1];
      assert NoDup(init) && g !in init;
      CleanupLoopExact(fs, init, fails);
      assert forall n :: n in files <==> n in init || n == g;
    }
  }

  /**
   * With a complete listing of main and no failed move, main holds no
   * ".pdf" name afterwards; each one is in Exception with its content;
   * every other main file stays; and no folder but main and Exception
   * changes.
   */
  lemma CleanupLeavesNoPdf(fs: Folders, leftovers: seq<string>, fails: set<FileId>)
    requires IsSelectionOf(leftovers, fs.main, ".pdf")
    requires forall n :: FileId(Main, n) !in fails
    ensures var r := CleanupLoop(fs, leftovers, fails);
      && r.(main := fs.main, exception := fs.exception) == fs
      && (forall n :: n in r.main <==> n in fs.main && !IsPdfName(n))
      && (forall n :: n in fs.main && IsPdfName(n) ==> n in r.exception && r.exception[n] == fs.main[n])
  {
    CleanupLoopExact(fs, leftovers, fails);
  }
}
