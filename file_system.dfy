/**
 * The folders the pipeline works on, each a map from bare file name to
 * content: the main PDF folder, the extracted-text folder, Exception,
 * Unique, Duplicates and the caller's repository folder.
 */
module FileSystem {
  import opened Text
  import opened Fingerprint

  type Dir = map<string, string>

  /** The six folders at one moment. */
  datatype Folders = Folders(
    main: Dir,
    extracted: Dir,
    exception: Dir,
    unique: Dir,
    duplicates: Dir,
    repository: Dir)

  datatype Folder = Main | Extracted | Exception | Unique | Duplicates | Repository

  /** A file in one of the folders; a set of them says which file operations fail (a lock, a permission). */
  datatype FileId = FileId(folder: Folder, name: string)

  /** Reading text file f of the extracted-text folder succeeds: it exists and is not locked. */
  predicate Readable(fs: Folders, fails: set<FileId>, f: string) {
    f in fs.extracted && FileId(Extracted, f) !in fails
  }

  /** The fingerprint of text file f of the extracted-text folder. */
  function TextHash(fs: Folders, f: string): string
    requires f in fs.extracted
  {
    ContentHash(fs.extracted[f])
  }

  /** names is a possible result of os.listdir for d: every entry exactly once, in some order. */
  ghost predicate IsListingOf(names: seq<string>, d: Dir) {
    NoDup(names) && forall n :: n in names <==> n in d
  }

  /**
   * names is a possible result of a list comprehension that keeps the
   * os.listdir entries of d whose lower-cased name ends in ext.
   */
  ghost predicate IsSelectionOf(names: seq<string>, d: Dir, ext: string) {
    NoDup(names) && forall n :: n in names <==> n in d && HasExtension(n, ext)
  }

  /** names is the part of some os.listdir result for d that a loop got through before it stopped. */
  ghost predicate IsPartialListingOf(names: seq<string>, d: Dir) {
    NoDup(names) && forall n :: n in names ==> n in d
  }

  /** The same for a filtered listing. */
  ghost predicate IsPartialSelectionOf(names: seq<string>, d: Dir, ext: string) {
    NoDup(names) && forall n :: n in names ==> n in d && HasExtension(n, ext)
  }

  /** The file system, changed in place by shutil.move, os.remove, shutil.copy2 and file writes. */
  class FileStore {
    var main: Dir
    var extracted: Dir
    var exception: Dir
    var unique: Dir
    var duplicates: Dir
    var repository: Dir

    function Snapshot(): Folders
      reads this
    {
      Folders(main, extracted, exception, unique, duplicates, repository)
    }

    constructor (init: Folders)
      ensures Snapshot() == init
    {
      main, extracted, exception := init.main, init.extracted, init.exception;
      unique, duplicates, repository := init.unique, init.duplicates, init.repository;
    }
  }

  /** os.listdir: the entries of d in an order the operating system chooses. */
  method ListDir(d: Dir) returns (names: seq<string>)
    ensures IsListingOf(names, d)
  {
    names := [];
    var rest := d.Keys;
    while rest != {}
      invariant NoDup(names)
      invariant forall n :: n in names ==> n in d && n !in rest
      invariant forall n :: n in d ==> n in names || n in rest
      invariant rest <= d.Keys
      decreases rest
    {
      var n :| n in rest;
      names := names + [n];
      rest := rest - {n};
    }
  }

  /** The names a list comprehension keeps from a full listing are a full selection. */
  lemma SelectionOfListing(listing: seq<string>, d: Dir, ext: string)
    requires IsListingOf(listing, d)
    ensures IsSelectionOf(Select(listing, ext), d, ext)
  {
  }

  /** A loop that stops early has gone through part of a selection. */
  lemma SelectionPrefix(names: seq<string>, d: Dir, ext: string, i: nat)
    requires IsSelectionOf(names, d, ext) && i <= |names|
    ensures IsPartialSelectionOf(names[..i], d, ext)
  {
    forall n | n in names[..i] ensures n in names {
      var k :| 0 <= k < i && names[..i][k] == n;
      assert names[k] == n;
    }
  }

  /** A loop that stops early has gone through part of a listing. */
  lemma ListingPrefix(names: seq<string>, d: Dir, i: nat)
    requires IsListingOf(names, d) && i <= |names|
    ensures IsPartialListingOf(names[..i], d)
  {
    forall n | n in names[..i] ensures n in names {
      var k :| 0 <= k < i && names[..i][k] == n;
      assert names[k] == n;
    }
  }
}
